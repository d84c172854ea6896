/** The .NET string operations the tracer relies on, over `string = seq<char>`:
    padding, ASCII lower-casing, substring search, blank tests, joining with a
    space, order-preserving de-duplication and decimal rendering. */
module Text {
  import opened Options

  /** `n` spaces. */
  function Spaces(n: nat): (r: string)
    ensures |r| == n
    ensures forall i :: 0 <= i < n ==> r[i] == ' '
  {
    seq(n, _ => ' ')
  }

  /** `part` appears in `s` starting at index `col`. */
  predicate At(s: string, col: int, part: string) {
    && 0 <= col && col + |part| <= |s|
    && forall k :: col <= k < col + |part| ==> s[k] == part[k - col]
  }

  /** Each part of a concatenation appears where it was put. */
  lemma AtConcat(x: string, y: string, z: string)
    ensures At(x + y + z, 0, x) && At(x + y + z, |x|, y) && At(x + y + z, |x| + |y|, z)
  {
  }

  /** What appears inside a part appears in the whole, shifted by the part's column. */
  lemma AtWithin(s: string, col: int, part: string, off: int, sub: string)
    requires At(s, col, part) && At(part, off, sub)
    ensures At(s, col + off, sub)
  {
    forall k | col + off <= k < col + off + |sub|
      ensures s[k] == sub[k - col - off]
    {
      assert s[k] == part[k - col];
    }
  }

  /** `String.PadRight(width)`: appends spaces up to `width`, never truncates. */
  function PadRight(s: string, width: nat): (r: string)
    ensures |r| == if |s| < width then width else |s|
    ensures At(r, 0, s)
    ensures forall i :: |s| <= i < |r| ==> r[i] == ' '
  {
    if |s| < width then s + Spaces(width - |s|) else s
  }

  /** `String.PadLeft(width)`: prepends spaces up to `width`, never truncates. */
  function PadLeft(s: string, width: nat): (r: string)
    ensures |r| == if |s| < width then width else |s|
    ensures At(r, |r| - |s|, s)
    ensures forall i :: 0 <= i < |r| - |s| ==> r[i] == ' '
  {
    if |s| < width then Spaces(width - |s|) + s else s
  }

  /** Padding a second time to the same width changes nothing. */
  lemma PadIdempotent(s: string, width: nat)
    ensures PadRight(PadRight(s, width), width) == PadRight(s, width)
    ensures PadLeft(PadLeft(s, width), width) == PadLeft(s, width)
  {
  }

  predicate IsUpper(c: char) {
    'A' <= c <= 'Z'
  }

  /** Lower-casing of one character as `ToLower` does it in the current
      culture, for a culture that maps the ASCII capitals to the ASCII small
      letters (not Turkish or Azeri, where `'I'` becomes dotless `'ı'`);
      other characters are left as they are. */
  function LowerChar(c: char): (d: char)
    ensures !IsUpper(d)
    ensures IsUpper(c) ==> d as int == c as int + 32
    ensures !IsUpper(c) ==> d == c
  {
    if IsUpper(c) then (c as int + 32) as char else c
  }

  /** `String.ToLower()` on ASCII letters, under the culture assumption of
      `LowerChar`. */
  function Lower(s: string): (r: string)
    ensures |r| == |s|
    ensures forall i :: 0 <= i < |r| ==> !IsUpper(r[i])
    ensures forall i :: 0 <= i < |r| ==> r[i] == LowerChar(s[i])
  {
    seq(|s|, i requires 0 <= i < |s| => LowerChar(s[i]))
  }

  /** Lower-casing is idempotent, and a string without upper-case letters is
      its own lower case. */
  lemma LowerIdempotent(s: string)
    ensures Lower(Lower(s)) == Lower(s)
    ensures (forall i :: 0 <= i < |s| ==> !IsUpper(s[i])) ==> Lower(s) == s
  {
  }

  /** `String.Contains(needle)`: ordinal substring search from the left. */
  function Contains(hay: string, needle: string): (b: bool)
    ensures b <==> exists i :: At(hay, i, needle)
    decreases |hay|
  {
    if |hay| < |needle| then
      assert forall i :: !At(hay, i, needle);
      false
    else if At(hay, 0, needle) then
      assert exists i :: At(hay, i, needle);
      true
    else
      var b := Contains(hay[1..], needle);
      ShiftOccurrence(hay, needle);
      b
  }

  /** Dropping the first character moves every later occurrence one to the left. */
  lemma AtShift(hay: string, i: int, needle: string)
    requires |hay| >= 1 && i >= 1
    ensures At(hay, i, needle) <==> At(hay[1..], i - 1, needle)
  {
    if At(hay, i, needle) {
      forall k | i - 1 <= k < i - 1 + |needle|
        ensures hay[1..][k] == needle[k - (i - 1)]
      {
        assert hay[1..][k] == hay[k + 1];
      }
    }
    if At(hay[1..], i - 1, needle) {
      forall k | i <= k < i + |needle|
        ensures hay[k] == needle[k - i]
      {
        assert hay[1..][k - 1] == hay[k];
      }
    }
  }

  /** An occurrence past index 0 is an occurrence in the tail, and back. */
  lemma ShiftOccurrence(hay: string, needle: string)
    requires |hay| >= 1 && !At(hay, 0, needle)
    ensures (exists i :: At(hay, i, needle)) <==> (exists j :: At(hay[1..], j, needle))
  {
    if exists i :: At(hay, i, needle) {
      var i :| At(hay, i, needle);
      assert i >= 1;
      AtShift(hay, i, needle);
      assert At(hay[1..], i - 1, needle);
    }
    if exists j :: At(hay[1..], j, needle) {
      var j :| At(hay[1..], j, needle);
      AtShift(hay, j + 1, needle);
      assert At(hay, j + 1, needle);
    }
  }

  /** `needle` occurs in `hay` once `hay` is seen in context. */
  lemma ContainsWithin(pre: string, needle: string, post: string)
    ensures Contains(pre + needle + post, needle)
  {
    AtConcat(pre, needle, post);
  }

  /** `Char.IsWhiteSpace`: the Unicode space separators plus the line and
      paragraph separators and the control characters U+0009..U+000D and U+0085. */
  predicate IsWhiteSpace(c: char) {
    || c == ' ' || ('\t' <= c <= '\r') || c == '\U{85}' || c == '\U{A0}'
    || c == '\U{1680}' || ('\U{2000}' <= c <= '\U{200A}') || c == '\U{2028}' || c == '\U{2029}'
    || c == '\U{202F}' || c == '\U{205F}' || c == '\U{3000}'
  }

  /** `String.IsNullOrWhiteSpace`: null, empty, or white space only. */
  predicate IsNullOrWhiteSpace(s: Option<string>) {
    match s
    case None => true
    case Some(t) => forall i :: 0 <= i < |t| ==> IsWhiteSpace(t[i])
  }

  /** `String.Join(" ", xs)`. */
  function JoinSpace(xs: seq<string>): (r: string)
    ensures |xs| == 0 ==> r == ""
    ensures |xs| >= 1 ==> At(r, 0, xs[0])
    ensures |xs| >= 2 ==> |r| > |xs[0]| && r[|xs[0]|] == ' '
    decreases |xs|
  {
    if |xs| == 0 then ""
    else if |xs| == 1 then
      xs[0]
    else
      AtConcat(xs[0], " ", JoinSpace(xs[1..]));
      xs[0] + " " + JoinSpace(xs[1..])
  }

  /** Splitting at every space; the inverse of `JoinSpace` on space-free parts. */
  function SplitSpace(s: string): (r: seq<string>)
    ensures |r| >= 1
    decreases |s|
  {
    if |s| == 0 then [""]
    else if s[0] == ' ' then [""] + SplitSpace(s[1..])
    else
      var t := SplitSpace(s[1..]);
      [[s[0]] + t[0]] + t[1..]
  }

  predicate NoSpace(s: string) {
    forall i :: 0 <= i < |s| ==> s[i] != ' '
  }

  /** Splitting a space-free word followed by more text. */
  lemma {:induction false} SplitWord(w: string, rest: string)
    requires NoSpace(w)
    ensures SplitSpace(w + rest) == [w + SplitSpace(rest)[0]] + SplitSpace(rest)[1..]
    decreases |w|
  {
    if |w| > 0 {
      assert (w + rest)[1..] == w[1..] + rest;
      SplitWord(w[1..], rest);
      assert [w[0]] + (w[1..] + SplitSpace(rest)[0]) == w + SplitSpace(rest)[0];
    } else {
      var t := SplitSpace(rest);
      assert w + rest == rest;
      assert w + t[0] == t[0];
      assert [t[0]] + t[1..] == t;
    }
  }

  /** Joining space-free parts with single spaces and splitting again gives the
      parts back. */
  lemma {:induction false} SplitJoin(xs: seq<string>)
    requires |xs| >= 1
    requires forall i :: 0 <= i < |xs| ==> NoSpace(xs[i])
    ensures SplitSpace(JoinSpace(xs)) == xs
    decreases |xs|
  {
    if |xs| == 1 {
      SplitWord(xs[0], "");
      assert xs[0] + "" == xs[0];
    } else {
      var rest := JoinSpace(xs[1..]);
      SplitJoin(xs[1..]);
      assert xs[0] + " " + rest == xs[0] + (" " + rest);
      SplitWord(xs[0], " " + rest);
      assert (" " + rest)[0] == ' ';
      assert (" " + rest)[1..] == rest;
      var t := SplitSpace(" " + rest);
      assert t == [""] + xs[1..];
      assert t[0] == "" && t[1..] == xs[1..];
      assert xs[0] + t[0] == xs[0];
      assert JoinSpace(xs) == xs[0] + (" " + rest);
      assert xs == [xs[0]] + xs[1..];
    }
  }

  predicate NoDuplicates<T(==)>(s: seq<T>) {
    forall i, j :: 0 <= i < j < |s| ==> s[i] != s[j]
  }

  /** The index of the first occurrence of `x` in `s`. */
  function FirstIndex<T(==)>(s: seq<T>, x: T): (p: nat)
    requires x in s
    ensures p < |s| && s[p] == x && x !in s[..p]
    decreases |s|
  {
    if s[0] == x then 0
    else
      var p := 1 + FirstIndex(s[1..], x);
      assert s[..p] == [s[0]] + s[1..][..p - 1];
      p
  }

  /** An element already in `s` keeps its first index when more is appended. */
  lemma FirstIndexAppend<T>(s: seq<T>, y: T, x: T)
    requires x in s
    ensures FirstIndex(s + [y], x) == FirstIndex(s, x)
  {
    var p := FirstIndex(s, x);
    var q := FirstIndex(s + [y], x);
    assert (s + [y])[p] == x;
  }

  /** `Enumerable.Distinct`: keeps the first occurrence of each element,
      in the order of those first occurrences (`DistinctFirstOrder`). */
  function Distinct(s: seq<string>): (r: seq<string>)
    ensures NoDuplicates(r)
    ensures forall x :: x in r <==> x in s
    ensures |r| <= |s|
    decreases |s|
  {
    if |s| == 0 then []
    else
      var d := Distinct(s[..|s| - 1]);
      var x := s[|s| - 1];
      assert s == s[..|s| - 1] + [x];
      if x in d then d else d + [x]
  }

  /** The elements of `r`, all of which occur in `s`, come in the order of
      their first occurrences in `s`. */
  predicate InFirstOrder(s: seq<string>, r: seq<string>)
    requires forall y :: y in r ==> y in s
  {
    forall i, j :: 0 <= i < j < |r| ==> FirstIndex(s, r[i]) < FirstIndex(s, r[j])
  }

  /** The elements `Distinct` keeps come in the order of their first
      occurrences in the input. */
  lemma {:induction false} DistinctFirstOrder(s: seq<string>)
    ensures InFirstOrder(s, Distinct(s))
    decreases |s|
  {
    if |s| > 0 {
      var init, x := s[..|s| - 1], s[|s| - 1];
      DistinctFirstOrder(init);
      assert s == init + [x];
      FirstOrderAppend(init, Distinct(init), x);
    }
  }

  /** `x` not yet seen sits just after all of `s`. */
  lemma FirstIndexLast(s: seq<string>, x: string)
    requires x !in s
    ensures FirstIndex(s + [x], x) == |s|
  {
    assert (s + [x])[|s|] == x;
    assert (s + [x])[..|s|] == s;
  }

  /** The order of first occurrences survives appending one more element. */
  lemma FirstOrderAppend(init: seq<string>, d: seq<string>, x: string)
    requires forall y :: y in d <==> y in init
    requires InFirstOrder(init, d)
    ensures x in d ==> InFirstOrder(init + [x], d)
    ensures x !in d ==> InFirstOrder(init + [x], d + [x])
  {
    var s := init + [x];
    forall y | y in d
      ensures FirstIndex(s, y) == FirstIndex(init, y)
    {
      FirstIndexAppend(init, x, y);
    }
    if x !in d {
      var r := d + [x];
      FirstIndexLast(init, x);
      forall i, j | 0 <= i < j < |r|
        ensures FirstIndex(s, r[i]) < FirstIndex(s, r[j])
      {
        assert r[i] == d[i];
        if j < |d| {
          assert r[j] == d[j];
        } else {
          assert r[j] == x;
        }
      }
    }
  }

  /** A sequence without duplicates is left as it is; hence `Distinct` is idempotent. */
  lemma {:induction false} DistinctOfDistinct(s: seq<string>)
    requires NoDuplicates(s)
    ensures Distinct(s) == s
    decreases |s|
  {
    if |s| > 0 {
      DistinctOfDistinct(s[..|s| - 1]);
      assert s[|s| - 1] !in s[..|s| - 1];
      assert s == s[..|s| - 1] + [s[|s| - 1]];
    }
  }

  function DigitChar(d: nat): (c: char)
    requires d < 10
    ensures '0' <= c <= '9'
  {
    ('0' as int + d) as char
  }

  /** Decimal digits of a natural number, most significant first, no leading zero. */
  function NatToDecimal(n: nat): (r: string)
    ensures |r| >= 1
    ensures forall i :: 0 <= i < |r| ==> '0' <= r[i] <= '9'
    ensures r[0] == '0' ==> n == 0
    decreases n
  {
    if n < 10 then [DigitChar(n)] else NatToDecimal(n / 10) + [DigitChar(n % 10)]
  }

  /** The number a string of decimal digits denotes. */
  function DecimalValue(s: string): (n: nat)
    requires forall i :: 0 <= i < |s| ==> '0' <= s[i] <= '9'
    decreases |s|
  {
    if |s| == 0 then 0
    else 10 * DecimalValue(s[..|s| - 1]) + (s[|s| - 1] as int - '0' as int)
  }

  /** Reading the digits back yields the number. */
  lemma {:induction false} DecimalRoundTrip(n: nat)
    ensures DecimalValue(NatToDecimal(n)) == n
    decreases n
  {
    if n >= 10 {
      DecimalRoundTrip(n / 10);
      var s := NatToDecimal(n);
      assert s[..|s| - 1] == NatToDecimal(n / 10);
    }
  }

  /** Numbers below 1000 take at most three digits. */
  lemma {:induction false} DecimalWidth(n: nat)
    ensures n < 10 ==> |NatToDecimal(n)| == 1
    ensures n < 100 ==> |NatToDecimal(n)| <= 2
    ensures n < 1000 ==> |NatToDecimal(n)| <= 3
  {
    if n >= 10 {
      DecimalWidth(n / 10);
    }
  }

  /** `Int32.ToString()` / `Int64.ToString()`, with `'-'` as the culture's
      negative sign: a minus sign exactly for a negative number, then the
      decimal digits of its magnitude, which read back as that magnitude. */
  function IntToDecimal(i: int): (r: string)
    ensures |r| >= 1
    ensures r[0] == '-' <==> i < 0
    ensures var digits := if i < 0 then r[1..] else r;
            && |digits| >= 1
            && (forall k :: 0 <= k < |digits| ==> '0' <= digits[k] <= '9')
            && DecimalValue(digits) == (if i < 0 then -i else i)
  {
    if i < 0 then
      var d := NatToDecimal(-i);
      DecimalRoundTrip(-i);
      assert ("-" + d)[1..] == d;
      "-" + d
    else
      DecimalRoundTrip(i);
      NatToDecimal(i)
  }
}
