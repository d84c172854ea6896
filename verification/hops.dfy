/** Hop discovery of `Program.TraceRoute`: one echo probe per TTL in
    [1, maxTTL), optional retries on time-out, a per-TTL decision on what the
    hop table records, and the final relocation of the highest hop.

    The network is an oracle `send` from probe to reply; the parallel loop is
    the sequential fold `Fill` over ascending TTLs. Addresses are an abstract
    type `A`, with the unspecified address `IPAddress.Any` passed in as `any`. */
module Hops {
  import opened Options

  /** `IPStatus`, reduced to the three values the tracer tells apart, plus
      any other status. */
  datatype Status = TtlExpired | Success | TimedOut | OtherStatus(code: int)

  datatype Reply<A> = Reply(status: Status, address: A)

  /** One `Ping.Send`: the TTL and time-out it carries, and which attempt for
      that TTL it is (0 for the first send), so that repeated sends may differ. */
  datatype Probe = Probe(ttl: int, timeout: nat, attempt: nat)

  /** `Enumerable.Last` on an empty dictionary. */
  datatype TraceError = EmptySequence

  /* ---------------- retry loop ---------------- */

  /** The retries still to be sent after `reply`, the reply to attempt `i`, when
      at most `count` retries are allowed in all. Each retry waits `timeout / 2`. */
  function Retries<A>(send: Probe -> Reply<A>, ttl: int, timeout: nat, reply: Reply<A>,
                      i: nat, count: int): (ps: seq<Probe>)
    ensures reply.status != TimedOut || i >= count ==> ps == []
    ensures reply.status == TimedOut && i < count ==> |ps| >= 1
    ensures |ps| <= if i < count then count - i else 0
    ensures forall k :: 0 <= k < |ps| ==> ps[k] == Probe(ttl, timeout / 2, i + k + 1)
    ensures forall k :: 0 <= k < |ps| - 1 ==> send(ps[k]).status == TimedOut
    ensures |ps| >= 1 && send(ps[|ps| - 1]).status == TimedOut ==> |ps| == count - i
    decreases count - i
  {
    if i >= count || reply.status != TimedOut then []
    else
      var p := Probe(ttl, timeout / 2, i + 1);
      [p] + Retries(send, ttl, timeout, send(p), i + 1, count)
  }

  /** Every probe sent for one TTL, in order: the first with the full time-out,
      then, when `retry` is set, retries until a reply other than `TimedOut`
      arrives or `retryCount` retries have been spent. */
  function Attempts<A>(send: Probe -> Reply<A>, ttl: int, timeout: nat, retry: bool,
                       retryCount: int): (ps: seq<Probe>)
    ensures |ps| >= 1 && ps[0] == Probe(ttl, timeout, 0)
    ensures !retry ==> |ps| == 1
    ensures |ps| <= 1 + (if retryCount > 0 then retryCount else 0)
    ensures forall k :: 0 <= k < |ps| ==> ps[k].ttl == ttl && ps[k].attempt == k
    ensures forall k :: 1 <= k < |ps| ==> ps[k].timeout == timeout / 2
    ensures forall k :: 0 <= k < |ps| - 1 ==> send(ps[k]).status == TimedOut
    ensures retry && send(ps[|ps| - 1]).status == TimedOut ==>
              |ps| == 1 + (if retryCount > 0 then retryCount else 0)
  {
    var first := Probe(ttl, timeout, 0);
    [first] + (if retry then Retries(send, ttl, timeout, send(first), 0, retryCount) else [])
  }

  /** The reply that decides the TTL's entry: the one to the last probe sent. */
  function FinalReply<A>(send: Probe -> Reply<A>, ttl: int, timeout: nat, retry: bool,
                         retryCount: int): Reply<A>
  {
    var ps := Attempts(send, ttl, timeout, retry, retryCount);
    send(ps[|ps| - 1])
  }

  /** The probing of one TTL as the source writes it: one send, then a counted
      loop that re-sends while the reply is `TimedOut` and stops at the first
      other reply. */
  method ProbeTtl<A>(send: Probe -> Reply<A>, ttl: int, timeout: nat, retry: bool,
                     retryCount: int) returns (reply: Reply<A>, probes: seq<Probe>)
    ensures probes == Attempts(send, ttl, timeout, retry, retryCount)
    ensures reply == FinalReply(send, ttl, timeout, retry, retryCount)
  {
    var first := Probe(ttl, timeout, 0);
    reply := send(first);
    probes := [first];
    if retry {
      ghost var all := [first] + Retries(send, ttl, timeout, reply, 0, retryCount);
      var i: nat := 0;
      while i < retryCount
        invariant |probes| >= 1 && reply == send(probes[|probes| - 1])
        invariant probes + Retries(send, ttl, timeout, reply, i, retryCount) == all
        decreases retryCount - i
      {
        if reply.status != TimedOut {
          break;
        }
        var p := Probe(ttl, timeout / 2, i + 1);
        RetriesStep(send, ttl, timeout, probes, reply, i, retryCount);
        reply := send(p);
        probes := probes + [p];
        i := i + 1;
      }
      assert probes == all;
    }
    assert probes == Attempts(send, ttl, timeout, retry, retryCount);
  }

  /** One retry moves the next probe from the pending retries to the probes
      sent, leaving the whole sequence as it was. */
  lemma RetriesStep<A>(send: Probe -> Reply<A>, ttl: int, timeout: nat, sent: seq<Probe>,
                       reply: Reply<A>, i: nat, count: int)
    requires reply.status == TimedOut && i < count
    ensures var p := Probe(ttl, timeout / 2, i + 1);
            sent + Retries(send, ttl, timeout, reply, i, count)
            == (sent + [p]) + Retries(send, ttl, timeout, send(p), i + 1, count)
  {
    var p := Probe(ttl, timeout / 2, i + 1);
    var rest := Retries(send, ttl, timeout, send(p), i + 1, count);
    assert Retries(send, ttl, timeout, reply, i, count) == [p] + rest;
    assert sent + ([p] + rest) == (sent + [p]) + rest;
  }

  /* ---------------- the hop table ---------------- */

  /** One `KeyValuePair<int, IPAddress>` of the dictionary. */
  datatype Entry<A> = Entry(hop: int, address: A)

  /** The dictionary as its entries in enumeration order. A `Dictionary` that
      is only ever appended to, or whose last entry is removed and then one is
      added, enumerates in insertion order; the source depends on that order
      through `Last()` and through its output loop. */
  type Table<A> = seq<Entry<A>>

  /** `Dictionary.ContainsKey`. */
  predicate HasKey<A>(t: Table<A>, k: int) {
    exists i :: 0 <= i < |t| && t[i].hop == k
  }

  /** `Dictionary.ContainsValue`. */
  predicate HasValue<A(==)>(t: Table<A>, a: A) {
    exists i :: 0 <= i < |t| && t[i].address == a
  }

  /** Hop numbers strictly ascend in enumeration order. */
  predicate Ascending<A>(t: Table<A>) {
    forall i, j :: 0 <= i < j < |t| ==> t[i].hop < t[j].hop
  }

  /** No hop number occurs twice, as for every dictionary. */
  predicate UniqueKeys<A>(t: Table<A>) {
    forall i, j :: 0 <= i < j < |t| ==> t[i].hop != t[j].hop
  }

  /** The indexer `dict[k]`, with `None` for a missing key. */
  function Find<A>(t: Table<A>, k: int): (r: Option<A>)
    ensures r.None? <==> !HasKey(t, k)
    ensures r.Some? ==> exists i :: 0 <= i < |t| && t[i] == Entry(k, r.value)
    decreases |t|
  {
    if |t| == 0 then None
    else if t[|t| - 1].hop == k then Some(t[|t| - 1].address)
    else
      var r := Find(t[..|t| - 1], k);
      assert forall i :: 0 <= i < |t| - 1 ==> t[..|t| - 1][i] == t[i];
      r
  }

  /** Appending entries with other hop numbers leaves a lookup unchanged. */
  lemma {:induction false} FindAppend<A>(t: Table<A>, u: Table<A>, k: int)
    requires forall i :: 0 <= i < |u| ==> u[i].hop != k
    ensures Find(t + u, k) == Find(t, k)
    decreases |u|
  {
    if |u| > 0 {
      assert (t + u)[..|t + u| - 1] == t + u[..|u| - 1];
      FindAppend(t, u[..|u| - 1], k);
    } else {
      assert t + u == t;
    }
  }

  /* ---------------- per-TTL switch ---------------- */

  /** The entry one TTL's final reply may add: the router for `TtlExpired`,
      the target for `Success`, `any` for `TimedOut`. */
  function EntryFor<A>(ttl: int, reply: Reply<A>, any: A): Entry<A> {
    Entry(ttl, if reply.status == TimedOut then any else reply.address)
  }

  /** The `switch` on one TTL's final reply, adding at most that TTL's entry
      (`dict.Add` throws on a present key, so the TTL must be new). */
  function Record<A(==)>(t: Table<A>, ttl: int, reply: Reply<A>, any: A): (r: Table<A>)
    requires !HasKey(t, ttl)
    ensures r == t || r == t + [EntryFor(ttl, reply, any)]
  {
    match reply.status
    case TtlExpired => t + [EntryFor(ttl, reply, any)]
    case Success => if HasValue(t, reply.address) then t else t + [EntryFor(ttl, reply, any)]
    case TimedOut => t + [EntryFor(ttl, reply, any)]
    case OtherStatus(_) => t
  }

  /** What `Record` does to the dictionary: `TtlExpired` always records the
      router, `TimedOut` always records `any`, `Success` records the target
      only when its address is not yet a value of the table, any other status
      records nothing, and no other key changes. */
  lemma RecordSpec<A>(t: Table<A>, ttl: int, reply: Reply<A>, any: A)
    requires !HasKey(t, ttl)
    ensures var r := Record(t, ttl, reply, any);
            && (forall k :: k != ttl ==> Find(r, k) == Find(t, k))
            && (reply.status == TtlExpired ==> Find(r, ttl) == Some(reply.address))
            && (reply.status == TimedOut ==> Find(r, ttl) == Some(any))
            && (reply.status == Success && HasValue(t, reply.address) ==> Find(r, ttl) == None)
            && (reply.status == Success && !HasValue(t, reply.address) ==> Find(r, ttl) == Some(reply.address))
            && (reply.status.OtherStatus? ==> Find(r, ttl) == None)
  {
    var r := Record(t, ttl, reply, any);
    forall k | k != ttl
      ensures Find(r, k) == Find(t, k)
    {
      if r != t {
        FindAppend(t, [EntryFor(ttl, reply, any)], k);
      }
    }
  }

  /** The table after the TTLs 1 .. upTo-1 have been recorded in ascending
      order, `replies(ttl)` being the final reply for `ttl`. */
  function Fill<A(==)>(replies: int -> Reply<A>, any: A, upTo: int): (t: Table<A>)
    ensures forall i :: 0 <= i < |t| ==> 1 <= t[i].hop < upTo
    decreases upTo
  {
    if upTo <= 1 then []
    else
      var before := Fill(replies, any, upTo - 1);
      assert !HasKey(before, upTo - 1);
      Record(before, upTo - 1, replies(upTo - 1), any)
  }

  /** The fold records TTLs in ascending order, so the table it builds is
      already sorted by hop. */
  lemma {:induction false} FillAscending<A>(replies: int -> Reply<A>, any: A, upTo: int)
    ensures Ascending(Fill(replies, any, upTo))
    decreases upTo
  {
    if upTo > 1 {
      FillAscending(replies, any, upTo - 1);
      var before := Fill(replies, any, upTo - 1);
      var t := Fill(replies, any, upTo);
      assert t[..|before|] == before;
      forall i, j | 0 <= i < j < |t|
        ensures t[i].hop < t[j].hop
      {
        if j == |before| {
          assert t[i] == before[i];
        } else {
          assert t[i] == before[i] && t[j] == before[j];
        }
      }
    }
  }

  /** The final reply of every TTL, as `Fill` consumes them. */
  function FinalReplies<A>(send: Probe -> Reply<A>, timeout: nat, retry: bool,
                           retryCount: int): int -> Reply<A>
  {
    ttl => FinalReply(send, ttl, timeout, retry, retryCount)
  }

  /** Later TTLs never disturb the entries of earlier ones: the table for
      [1, lo) is a prefix of the table for [1, hi), and the rest of the longer
      table holds only hops from lo on. */
  lemma {:induction false} FillPrefix<A>(replies: int -> Reply<A>, any: A, lo: int, hi: int)
    requires lo <= hi
    ensures var short := Fill(replies, any, lo);
            var long := Fill(replies, any, hi);
            && |short| <= |long| && long[..|short|] == short
            && forall i :: |short| <= i < |long| ==> long[i].hop >= lo
    decreases hi - lo
  {
    if lo < hi {
      FillPrefix(replies, any, lo, hi - 1);
      if hi > 1 {
        var mid := Fill(replies, any, hi - 1);
        var long := Fill(replies, any, hi);
        var short := Fill(replies, any, lo);
        assert long[..|mid|] == mid;
        assert long[..|short|] == mid[..|short|];
      }
    }
  }

  /** The entry for a TTL is settled once that TTL has been recorded. */
  lemma FindSettled<A>(replies: int -> Reply<A>, any: A, maxTTL: int, ttl: int)
    requires 1 <= ttl < maxTTL
    ensures Find(Fill(replies, any, maxTTL), ttl) == Find(Fill(replies, any, ttl + 1), ttl)
  {
    var mid := Fill(replies, any, ttl + 1);
    var t := Fill(replies, any, maxTTL);
    FillPrefix(replies, any, ttl + 1, maxTTL);
    var tail := t[|mid|..];
    assert t == mid + tail;
    forall i | 0 <= i < |tail|
      ensures tail[i].hop != ttl
    {
      assert tail[i] == t[|mid| + i];
    }
    FindAppend(mid, tail, ttl);
  }

  /** How the entry for one TTL in the finished table follows from that TTL's
      reply and from the entries of the lower TTLs (`before`). */
  lemma FillEntry<A>(replies: int -> Reply<A>, any: A, maxTTL: int, ttl: int)
    requires 1 <= ttl < maxTTL
    ensures var t := Fill(replies, any, maxTTL);
            var before := Fill(replies, any, ttl);
            var reply := replies(ttl);
            && (reply.status == TtlExpired ==> Find(t, ttl) == Some(reply.address))
            && (reply.status == TimedOut ==> Find(t, ttl) == Some(any))
            && (reply.status == Success && HasValue(before, reply.address) ==> Find(t, ttl) == None)
            && (reply.status == Success && !HasValue(before, reply.address) ==> Find(t, ttl) == Some(reply.address))
            && (reply.status.OtherStatus? ==> Find(t, ttl) == None)
  {
    FindSettled(replies, any, maxTTL, ttl);
    var before := Fill(replies, any, ttl);
    assert !HasKey(before, ttl);
    assert Fill(replies, any, ttl + 1) == Record(before, ttl, replies(ttl), any);
    RecordSpec(before, ttl, replies(ttl), any);
  }

  /** The entry at position `j` of the finished table is the one recorded for
      its own TTL: the table before that TTL is exactly the entries before `j`. */
  lemma EntryPosition<A>(replies: int -> Reply<A>, any: A, maxTTL: int, j: int)
    requires 0 <= j < |Fill(replies, any, maxTTL)|
    ensures var t := Fill(replies, any, maxTTL);
            var ttl := t[j].hop;
            && 1 <= ttl < maxTTL
            && Fill(replies, any, ttl) == t[..j]
            && |Fill(replies, any, ttl + 1)| == j + 1
            && Fill(replies, any, ttl + 1)[j] == t[j]
  {
    var t := Fill(replies, any, maxTTL);
    var ttl := t[j].hop;
    var before := Fill(replies, any, ttl);
    var mid := Fill(replies, any, ttl + 1);
    assert |before| <= j && t[..|before|] == before by {
      FillPrefix(replies, any, ttl, maxTTL);
    }
    assert j < |mid| && t[..|mid|] == mid by {
      FillPrefix(replies, any, ttl + 1, maxTTL);
    }
    assert |mid| <= |before| + 1 by {
      assert mid == Record(before, ttl, replies(ttl), any);
    }
    assert mid[j] == t[j] by {
      assert t[..|mid|][j] == t[j];
    }
  }

  /** When `Record` adds an entry, it is the TTL's entry, and a `Success`
      reply only adds one for an address the table did not hold. */
  lemma RecordAppends<A>(t: Table<A>, ttl: int, reply: Reply<A>, any: A)
    requires !HasKey(t, ttl) && |Record(t, ttl, reply, any)| == |t| + 1
    ensures Record(t, ttl, reply, any)[|t|] == Entry(ttl, if reply.status == TimedOut then any else reply.address)
    ensures reply.status == Success ==> !HasValue(t, reply.address)
  {
  }

  /** A `Success` entry is the first appearance of its address: no lower TTL's
      entry has the same address, whatever that TTL's status was. */
  lemma SuccessFirstWins<A>(replies: int -> Reply<A>, any: A, maxTTL: int, i: int, j: int)
    requires 0 <= i < j < |Fill(replies, any, maxTTL)|
    requires replies(Fill(replies, any, maxTTL)[j].hop).status == Success
    ensures Fill(replies, any, maxTTL)[i].address != Fill(replies, any, maxTTL)[j].address
  {
    var t := Fill(replies, any, maxTTL);
    var ttl := t[j].hop;
    EntryPosition(replies, any, maxTTL, j);
    var before := t[..j];
    assert !HasKey(before, ttl);
    assert Fill(replies, any, ttl + 1) == Record(before, ttl, replies(ttl), any);
    RecordAppends(before, ttl, replies(ttl), any);
    assert t[i] == before[i];
  }

  /** When every TTL times out, the table is 1 -> any, 2 -> any, ..., with
      exactly one entry per probed TTL. */
  lemma {:induction false} AllTimedOut<A>(replies: int -> Reply<A>, any: A, maxTTL: int)
    requires maxTTL >= 1
    requires forall ttl :: 1 <= ttl < maxTTL ==> replies(ttl).status == TimedOut
    ensures |Fill(replies, any, maxTTL)| == maxTTL - 1
    ensures forall i :: 0 <= i < maxTTL - 1 ==> Fill(replies, any, maxTTL)[i] == Entry(i + 1, any)
    decreases maxTTL
  {
    if maxTTL > 1 {
      AllTimedOut(replies, any, maxTTL - 1);
      var before := Fill(replies, any, maxTTL - 1);
      assert Fill(replies, any, maxTTL) == before + [Entry(maxTTL - 1, any)];
    }
  }

  /* ---------------- sorting ---------------- */

  /** Places `e` into an ascending table after every smaller hop number. */
  function Insert<A>(e: Entry<A>, t: Table<A>): (r: Table<A>)
    requires Ascending(t) && !HasKey(t, e.hop)
    ensures |r| == |t| + 1 && Ascending(r)
    ensures multiset(r) == multiset(t) + multiset{e}
    decreases |t|
  {
    if |t| == 0 || t[|t| - 1].hop < e.hop then t + [e]
    else
      var init := t[..|t| - 1];
      var last := t[|t| - 1];
      assert t == init + [last];
      AscendingSplit(init, last);
      assert !HasKey(init, e.hop) by {
        assert forall i :: 0 <= i < |init| ==> init[i] == t[i];
      }
      var s := Insert(e, init);
      PermutedBelow(s, init, e, last.hop);
      AppendAbove(s, last);
      s + [last]
  }

  /** A rearrangement of `u` and `e` has every hop number below `bound` when
      `u` and `e` have. */
  lemma PermutedBelow<A>(s: Table<A>, u: Table<A>, e: Entry<A>, bound: int)
    requires multiset(s) == multiset(u) + multiset{e}
    requires forall i :: 0 <= i < |u| ==> u[i].hop < bound
    requires e.hop < bound
    ensures forall i :: 0 <= i < |s| ==> s[i].hop < bound
  {
    forall i | 0 <= i < |s|
      ensures s[i].hop < bound
    {
      assert s[i] in multiset(s);
      if s[i] != e {
        assert s[i] in multiset(u);
        var j :| 0 <= j < |u| && u[j] == s[i];
      }
    }
  }

  /** An entry above every hop number of a sorted table can be appended to it. */
  lemma AppendAbove<A>(s: Table<A>, last: Entry<A>)
    requires Ascending(s)
    requires forall i :: 0 <= i < |s| ==> s[i].hop < last.hop
    ensures Ascending(s + [last])
  {
    var r := s + [last];
    forall i, j | 0 <= i < j < |r|
      ensures r[i].hop < r[j].hop
    {
      assert r[i] == s[i];
      if j < |s| {
        assert r[j] == s[j];
      }
    }
  }

  /** `OrderBy(o => o.Key)`: the entries rearranged into ascending hop order. */
  function SortByHop<A>(t: Table<A>): (r: Table<A>)
    requires UniqueKeys(t)
    ensures |r| == |t| && Ascending(r)
    ensures multiset(r) == multiset(t)
    decreases |t|
  {
    if |t| == 0 then []
    else
      var init := t[..|t| - 1];
      var s := SortByHop(init);
      var e := t[|t| - 1];
      assert t == init + [e];
      assert !HasKey(s, e.hop) by {
        forall i | 0 <= i < |s|
          ensures s[i].hop != e.hop
        {
          assert s[i] in multiset(init);
        }
      }
      Insert(e, s)
  }

  /** An ascending table split into its last entry and the rest: the rest is
      ascending and lies wholly below the last entry. */
  lemma AscendingSplit<A>(init: Table<A>, last: Entry<A>)
    requires Ascending(init + [last])
    ensures Ascending(init)
    ensures forall i :: 0 <= i < |init| ==> init[i].hop < last.hop
    ensures !HasKey(init, last.hop)
  {
    var t := init + [last];
    assert t[|init|] == last;
    forall i | 0 <= i < |init|
      ensures init[i].hop < last.hop
    {
      assert t[i] == init[i];
    }
    assert forall i :: 0 <= i < |init| ==> t[i] == init[i];
  }

  /** Inserting an entry above every hop number of the table appends it. */
  lemma InsertAbove<A>(e: Entry<A>, t: Table<A>)
    requires Ascending(t) && !HasKey(t, e.hop)
    requires forall i :: 0 <= i < |t| ==> t[i].hop < e.hop
    ensures Insert(e, t) == t + [e]
  {
  }

  /** Sorting a table is inserting its last entry into the sorted rest. */
  lemma SortLast<A>(init: Table<A>, last: Entry<A>)
    requires UniqueKeys(init + [last])
    ensures UniqueKeys(init)
    ensures !HasKey(SortByHop(init), last.hop)
    ensures SortByHop(init + [last]) == Insert(last, SortByHop(init))
  {
    var t := init + [last];
    assert t[..|t| - 1] == init;
    assert forall i :: 0 <= i < |init| ==> t[i] == init[i];
    var s := SortByHop(init);
    forall i | 0 <= i < |s|
      ensures s[i].hop != last.hop
    {
      assert s[i] in multiset(init);
    }
  }

  /** A table already in ascending order is left as it is by sorting, which is
      the case for every table the sequential fold builds. */
  lemma {:induction false} SortAscending<A>(t: Table<A>)
    requires Ascending(t)
    ensures SortByHop(t) == t
    decreases |t|
  {
    if |t| > 0 {
      var init := t[..|t| - 1];
      var last := t[|t| - 1];
      assert t == init + [last];
      AscendingSplit(init, last);
      SortAscending(init);
      InsertAbove(last, init);
      SortLast(init, last);
    }
  }

  /* ---------------- compaction ---------------- */

  /** Lines 157-159 on the sorted dictionary: take the last entry out, then add
      its address under one past the hop number of the new last entry. Both
      `Last()` calls throw on an empty sequence, so fewer than two entries is
      an error. */
  function Compact<A>(t: Table<A>): (r: Result<Table<A>, TraceError>)
    ensures r.Err? <==> |t| < 2
    ensures r.Ok? ==> |r.value| == |t|
    ensures r.Ok? ==> r.value[..|t| - 1] == t[..|t| - 1]
    ensures r.Ok? ==> r.value[|t| - 1].address == t[|t| - 1].address
  {
    if |t| < 2 then Err(EmptySequence)
    else
      var rest := t[..|t| - 1];
      Ok(rest + [Entry(rest[|rest| - 1].hop + 1, t[|t| - 1].address)])
  }

  /** On a sorted table, compaction keeps every entry but the highest hop, puts
      that hop's address one past the second-highest hop number, at most the
      old highest and above every remaining hop number, so the table stays
      sorted. */
  lemma CompactSorted<A>(t: Table<A>)
    requires Ascending(t) && |t| >= 2
    ensures var r := Compact(t).value;
            var slot := t[|t| - 2].hop + 1;
            && Ascending(r)
            && r[|r| - 1] == Entry(slot, t[|t| - 1].address)
            && slot <= t[|t| - 1].hop
            && (forall i :: 0 <= i < |t| - 1 ==> t[i].hop < slot && r[i] == t[i])
  {
    var r := Compact(t).value;
    assert forall i :: 0 <= i < |t| - 1 ==> r[i] == t[..|t| - 1][i];
  }

  /** Seen as a dictionary, compaction changes only the highest hop's key and
      the key its address moves to. */
  lemma CompactFind<A>(t: Table<A>, k: int)
    requires |t| >= 2
    requires k != t[|t| - 1].hop && k != t[|t| - 2].hop + 1
    ensures Find(Compact(t).value, k) == Find(t, k)
  {
    var r := Compact(t).value;
    var rest := t[..|t| - 1];
    assert t == rest + [t[|t| - 1]];
    assert r == rest + [r[|r| - 1]];
    FindAppend(rest, [t[|t| - 1]], k);
    FindAppend(rest, [r[|r| - 1]], k);
  }

  /** A sorted table whose hop numbers are exactly 1..n, n >= 2, is left
      unchanged by compaction. */
  lemma CompactContiguous<A>(t: Table<A>)
    requires |t| >= 2
    requires forall i :: 0 <= i < |t| ==> t[i].hop == i + 1
    ensures Compact(t) == Ok(t)
  {
    var r := Compact(t).value;
    assert r == t[..|t| - 1] + [Entry(|t|, t[|t| - 1].address)];
    assert t == t[..|t| - 1] + [t[|t| - 1]];
  }

  /** Lines 156-159 after the probing: sort the table built from the final
      replies by hop, and compact it. */
  function SortAndCompact<A(==)>(replies: int -> Reply<A>, any: A, maxTTL: int): (r: Result<Table<A>, TraceError>)
    ensures r.Err? <==> |Fill(replies, any, maxTTL)| < 2
    ensures r.Ok? ==> |r.value| == |Fill(replies, any, maxTTL)|
  {
    var t := Fill(replies, any, maxTTL);
    FillAscending(replies, any, maxTTL);
    Compact(SortByHop(t))
  }

  /** `TraceRoute`: probe every TTL in [1, maxTTL), record the final replies,
      sort the table by hop, and compact it. */
  function TraceRoute<A(==)>(send: Probe -> Reply<A>, timeout: nat, maxTTL: int, retry: bool,
                             retryCount: int, any: A): (r: Result<Table<A>, TraceError>)
  {
    SortAndCompact(FinalReplies(send, timeout, retry, retryCount), any, maxTTL)
  }

  /** A successful trace is sorted by hop and every hop number in it is in
      [1, maxTTL). */
  lemma TraceRouteHops<A>(replies: int -> Reply<A>, any: A, maxTTL: int)
    requires SortAndCompact(replies, any, maxTTL).Ok?
    ensures var r := SortAndCompact(replies, any, maxTTL).value;
            && Ascending(r)
            && forall i :: 0 <= i < |r| ==> 1 <= r[i].hop < maxTTL
  {
    var t := Fill(replies, any, maxTTL);
    SortIsIdentity(replies, any, maxTTL);
    CompactInRange(t, maxTTL);
  }

  /** A successful trace is the probed table with its last hop moved down:
      the entries below the last one untouched, and the last hop's address
      kept one past the second-highest hop. */
  lemma TraceRouteEntries<A>(replies: int -> Reply<A>, any: A, maxTTL: int)
    requires SortAndCompact(replies, any, maxTTL).Ok?
    ensures var t := Fill(replies, any, maxTTL);
            var r := SortAndCompact(replies, any, maxTTL).value;
            && r[..|t| - 1] == t[..|t| - 1]
            && r[|t| - 1] == Entry(t[|t| - 2].hop + 1, t[|t| - 1].address)
  {
    var t := Fill(replies, any, maxTTL);
    SortIsIdentity(replies, any, maxTTL);
    CompactSorted(t);
  }

  /** The fold already produces the table in hop order, so the sort at line
      156 leaves it as it is. */
  lemma SortIsIdentity<A>(replies: int -> Reply<A>, any: A, maxTTL: int)
    ensures Ascending(Fill(replies, any, maxTTL))
    ensures SortAndCompact(replies, any, maxTTL) == Compact(Fill(replies, any, maxTTL))
  {
    FillAscending(replies, any, maxTTL);
    SortAscending(Fill(replies, any, maxTTL));
  }

  /** Compaction of a sorted table keeps it sorted and keeps every hop number
      inside the range the table's hop numbers were in. */
  lemma CompactInRange<A>(t: Table<A>, maxTTL: int)
    requires Ascending(t) && |t| >= 2
    requires forall i :: 0 <= i < |t| ==> 1 <= t[i].hop < maxTTL
    ensures var r := Compact(t).value;
            && Ascending(r)
            && (forall i :: 0 <= i < |r| ==> 1 <= r[i].hop < maxTTL)
            && r[..|t| - 1] == t[..|t| - 1]
            && r[|t| - 1] == Entry(t[|t| - 2].hop + 1, t[|t| - 1].address)
  {
    CompactSorted(t);
    var r := Compact(t).value;
    forall i | 0 <= i < |r|
      ensures 1 <= r[i].hop < maxTTL
    {
      if i < |r| - 1 {
        assert r[i] == t[i];
      } else {
        assert t[|t| - 2].hop >= 1 && t[|t| - 1].hop < maxTTL;
      }
    }
  }

  /** With at most one TTL to probe the table cannot reach two entries, so the
      trace always fails. */
  lemma ShortTraceFails<A>(replies: int -> Reply<A>, any: A, maxTTL: int)
    requires maxTTL <= 2
    ensures SortAndCompact(replies, any, maxTTL).Err?
  {
    var t := Fill(replies, any, maxTTL);
    if |t| >= 2 {
      assert false;
    }
  }
}
