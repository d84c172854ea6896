/** The per-hop output line of the trace command: hop number left-aligned in
    three columns, address right-aligned in fifteen, then the geo string. */
module Report {
  import opened Text
  import opened Hops

  /** Every column of `h + " " + a + " " + geo`, for an `h` that is `digits`
      followed by blanks and an `a` that is blanks followed by `address`. */
  lemma Layout(h: string, digits: string, a: string, address: string, geo: string)
    requires At(h, 0, digits) && forall k :: |digits| <= k < |h| ==> h[k] == ' '
    requires At(a, |a| - |address|, address) && forall k :: 0 <= k < |a| - |address| ==> a[k] == ' '
    ensures var line := h + " " + a + " " + geo;
            && |line| == |h| + 1 + |a| + 1 + |geo|
            && At(line, 0, digits)
            && (forall k :: |digits| <= k < |h| ==> line[k] == ' ')
            && line[|h|] == ' '
            && (forall k :: |h| + 1 <= k < |h| + 1 + |a| - |address| ==> line[k] == ' ')
            && At(line, |h| + 1 + |a| - |address|, address)
            && line[|h| + 1 + |a|] == ' '
            && At(line, |h| + |a| + 2, geo)
  {
    var front := h + " " + a;
    var line := front + " " + geo;
    AtConcat(h, " ", a);
    AtConcat(front, " ", geo);
    AtWithin(line, 0, front, 0, h);
    AtWithin(line, 0, h, 0, digits);
    AtWithin(line, 0, front, |h| + 1, a);
    AtWithin(line, |h| + 1, a, |a| - |address|, address);
    forall k | |digits| <= k < |h|
      ensures line[k] == ' '
    {
      assert line[k] == h[k];
    }
    forall k | |h| + 1 <= k < |h| + 1 + |a| - |address|
      ensures line[k] == ' '
    {
      assert line[k] == a[k - |h| - 1];
    }
  }

  /** `hop.ToString().PadRight(3) + " " + address.PadLeft(15) + " " + geo`,
      column by column: the hop's digits, blanks up to column 3 (or none for a
      longer number), one space, blanks and then the address right-aligned in
      fifteen columns (or the bare address when longer), one space, the geo
      string. */
  function FormatLine(hop: int, address: string, geo: string): (line: string)
    ensures var d := IntToDecimal(hop);
            var hw := if |d| < 3 then 3 else |d|;
            var aw := if |address| < 15 then 15 else |address|;
            && |line| == hw + 1 + aw + 1 + |geo|
            && At(line, 0, d)
            && (forall k :: |d| <= k < hw ==> line[k] == ' ')
            && line[hw] == ' '
            && (forall k :: hw + 1 <= k < hw + 1 + aw - |address| ==> line[k] == ' ')
            && At(line, hw + 1 + aw - |address|, address)
            && line[hw + 1 + aw] == ' '
            && At(line, hw + aw + 2, geo)
  {
    var h := PadRight(IntToDecimal(hop), 3);
    var a := PadLeft(address, 15);
    Layout(h, IntToDecimal(hop), a, address, geo);
    h + " " + a + " " + geo
  }

  /** A hop below 1000 and an address of at most fifteen characters (any
      dotted IPv4 address) give fixed columns: the hop's digits from column 0,
      blanks up to column 3 inclusive, blanks and then the address ending at
      column 18, a space at column 19, and the geo string from column 20. */
  lemma LineColumns(hop: nat, address: string, geo: string)
    requires hop < 1000 && |address| <= 15
    ensures var line := FormatLine(hop, address, geo);
            var d := NatToDecimal(hop);
            && |line| == 20 + |geo|
            && At(line, 0, d)
            && (forall k :: |d| <= k < 4 ==> line[k] == ' ')
            && (forall k :: 4 <= k < 19 - |address| ==> line[k] == ' ')
            && At(line, 19 - |address|, address)
            && line[19] == ' '
            && At(line, 20, geo)
  {
    DecimalWidth(hop);
    var d := NatToDecimal(hop);
    assert IntToDecimal(hop) == d;
    var line := FormatLine(hop, address, geo);
    assert |line| == 20 + |geo|;
  }

  /** The decimal digits at the start of a line read back as the number. */
  lemma HopReadsBack(line: string, hop: nat)
    requires At(line, 0, NatToDecimal(hop))
    ensures |line| >= |NatToDecimal(hop)| && DecimalValue(line[..|NatToDecimal(hop)|]) == hop
  {
    var d := NatToDecimal(hop);
    assert line[..|d|] == d;
    DecimalRoundTrip(hop);
  }

  /** `line` starts with the decimal digits of `hop`, ended by a blank, and
      those digits read back as `hop`. */
  predicate LeadsWith(line: string, hop: int) {
    && hop >= 0
    && At(line, 0, NatToDecimal(hop))
    && DecimalValue(line[..|NatToDecimal(hop)|]) == hop
    && |line| > |NatToDecimal(hop)| && line[|NatToDecimal(hop)|] == ' '
  }

  /** The fixed columns of one printed hop: the hop number leading the line
      (`LeadsWith`), blanks through column 3, the address right-aligned to end
      at column 18 behind blanks, a space at column 19, and the geo string
      filling the rest of the line from column 20. */
  predicate Aligned(line: string, hop: int, address: string, geo: string) {
    && LeadsWith(line, hop)
    && |line| == 20 + |geo|
    && |address| <= 15
    && (forall k :: |NatToDecimal(hop)| <= k < 4 ==> line[k] == ' ')
    && (forall k :: 4 <= k < 19 - |address| ==> line[k] == ' ')
    && At(line, 19 - |address|, address)
    && line[19] == ' '
    && At(line, 20, geo)
  }

  /** The `foreach` over the trace table: one line per entry, in the table's
      order, each starting with its entry's hop number and ending with the
      geo string of its entry's address. */
  function Lines<A>(t: Table<A>, text: A -> string, geo: A -> string): (lines: seq<string>)
    ensures |lines| == |t|
    ensures forall i :: 0 <= i < |t| ==>
              && At(lines[i], 0, IntToDecimal(t[i].hop))
              && At(lines[i], |lines[i]| - |geo(t[i].address)|, geo(t[i].address))
  {
    seq(|t|, i requires 0 <= i < |t| => FormatLine(t[i].hop, text(t[i].address), geo(t[i].address)))
  }

  /** Line `i` is the formatted entry `i`. */
  lemma LineOf<A>(t: Table<A>, text: A -> string, geo: A -> string, i: int)
    requires 0 <= i < |t|
    ensures Lines(t, text, geo)[i] == FormatLine(t[i].hop, text(t[i].address), geo(t[i].address))
  {
  }

  /** The lines of a table sorted by hop with hops in [1, 1000), over
      addresses printed in at most fifteen characters: every line has the
      fixed columns of `Aligned`. */
  lemma AlignedLines<A>(t: Table<A>, text: A -> string, geo: A -> string)
    requires forall i :: 0 <= i < |t| ==> 1 <= t[i].hop < 1000
    requires forall a :: |text(a)| <= 15
    ensures var lines := Lines(t, text, geo);
            forall i :: 0 <= i < |t| ==>
              Aligned(lines[i], t[i].hop, text(t[i].address), geo(t[i].address))
  {
    var lines := Lines(t, text, geo);
    forall i | 0 <= i < |t|
      ensures Aligned(lines[i], t[i].hop, text(t[i].address), geo(t[i].address))
    {
      var e := t[i];
      LineOf(t, text, geo, i);
      LineColumns(e.hop, text(e.address), geo(e.address));
      HopReadsBack(lines[i], e.hop);
    }
  }

  /** The printed trace of at most 999 hops: each line has the fixed columns
      of `Aligned`, its hop number reading back from its leading digits; by
      `TraceRouteHops` those numbers ascend down the output. */
  lemma TraceLines<A>(replies: int -> Reply<A>, any: A, maxTTL: int, text: A -> string, geo: A -> string)
    requires maxTTL <= 1000
    requires SortAndCompact(replies, any, maxTTL).Ok?
    requires forall a :: |text(a)| <= 15
    ensures var t := SortAndCompact(replies, any, maxTTL).value;
            var lines := Lines(t, text, geo);
            forall i :: 0 <= i < |t| ==>
              Aligned(lines[i], t[i].hop, text(t[i].address), geo(t[i].address))
  {
    var t := SortAndCompact(replies, any, maxTTL).value;
    TraceRouteHops(replies, any, maxTTL);
    AlignedLines(t, text, geo);
  }
}
