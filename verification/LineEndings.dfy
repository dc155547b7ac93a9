/** Converting CRLF to LF in a buffer: `findCrOffsets` and `stripCr` of clrf-to-lf.js. */
module LineEndings {

  type Byte = b: int | 0 <= b < 256

  const CR: Byte := 0x0d
  const LF: Byte := 0x0a

  /** The CR of a CRLF pair stands at `i`. */
  predicate PairAt(buf: seq<Byte>, i: int) {
    0 <= i && i + 1 < |buf| && buf[i] == CR && buf[i + 1] == LF
  }

  ghost predicate Increasing(offsets: seq<nat>) {
    forall i, j :: 0 <= i < j < |offsets| ==> offsets[i] < offsets[j]
  }

  /** `buf.indexOf(LF, pos)`, or -1. */
  function IndexOfLf(buf: seq<Byte>, pos: nat): (i: int)
    requires pos <= |buf|
    ensures i == -1 || pos <= i < |buf|
    ensures i == -1 ==> LF !in buf[pos..]
    ensures i >= 0 ==> buf[i] == LF && LF !in buf[pos..i]
    decreases |buf| - pos
  {
    if pos == |buf| then -1 else if buf[pos] == LF then pos else IndexOfLf(buf, pos + 1)
  }

  /** The offsets of exactly the CRs that an LF follows, in order. */
  method FindCrOffsets(buf: seq<Byte>) returns (offsets: seq<nat>)
    ensures Increasing(offsets)
    ensures forall i :: i in offsets <==> PairAt(buf, i)
  {
    offsets := [];
    var pos := 0;
    while pos < |buf|
      invariant pos <= |buf| && Increasing(offsets)
      invariant forall i :: i in offsets <==> PairAt(buf, i) && i + 1 < pos
    {
      var lf := IndexOfLf(buf, pos);
      ghost var to := if lf == -1 then |buf| else lf;
      assert forall i :: pos <= i < to ==> buf[i] in buf[pos..to];
      if lf == -1 {
        assert buf[pos..] == buf[pos..|buf|];
        break;
      }
      if lf > 0 && buf[lf - 1] == CR {
        assert forall o :: o in offsets ==> o < lf - 1;
        assert forall k :: 0 <= k < |offsets| ==> offsets[k] in offsets;
        offsets := offsets + [lf - 1];
      }
      pos := lf + 1;
    }
  }

  /** The bytes that are not at one of the offsets. */
  function Dropped(buf: seq<Byte>, offsets: seq<nat>, n: nat): seq<Byte>
    requires n <= |buf|
  {
    if n == 0 then [] else Dropped(buf, offsets, n - 1) + if n - 1 in offsets then [] else [buf[n - 1]]
  }

  /** The buffer without the CR of any CRLF pair. */
  function Stripped(buf: seq<Byte>): seq<Byte> {
    if buf == [] then []
    else (if |buf| > 1 && buf[0] == CR && buf[1] == LF then [] else [buf[0]]) + Stripped(buf[1..])
  }

  function Concat(parts: seq<seq<Byte>>): seq<Byte> {
    if parts == [] then [] else Concat(parts[..|parts| - 1]) + parts[|parts| - 1]
  }

  method StripCr(buf: seq<Byte>, crOffsets: seq<nat>) returns (r: seq<Byte>)
    requires Increasing(crOffsets) && forall o <- crOffsets :: o < |buf|
    ensures r == Dropped(buf, crOffsets, |buf|)
  {
    hide Concat, Dropped;
    var parts: seq<seq<Byte>> := [];
    var prev := 0;
    NoParts(buf, crOffsets);
    for i := 0 to |crOffsets|
      invariant prev <= |buf| && Concat(parts) == Dropped(buf, crOffsets, prev)
      invariant prev == if i == 0 then 0 else crOffsets[i - 1] + 1
    {
      var cr := crOffsets[i];
      assert cr in crOffsets;
      DropOne(buf, crOffsets, i, prev, parts);
      parts := parts + [buf[prev..cr]];
      prev := cr + 1;
    }
    DropRest(buf, crOffsets, prev, parts);
    parts := parts + [buf[prev..]];
    r := Concat(parts);
  }

  /** The part in front of offset number `i`, and the dropped byte at it. */
  lemma DropOne(buf: seq<Byte>, offsets: seq<nat>, i: nat, prev: nat, parts: seq<seq<Byte>>)
    requires Increasing(offsets) && i < |offsets| && prev <= offsets[i] < |buf|
    requires prev == if i == 0 then 0 else offsets[i - 1] + 1
    requires Concat(parts) == Dropped(buf, offsets, prev)
    ensures Concat(parts + [buf[prev..offsets[i]]]) == Dropped(buf, offsets, offsets[i] + 1)
  {
    DroppedBetween(buf, offsets, i, prev, offsets[i]);
    ConcatAppend(parts, buf[prev..offsets[i]]);
    hide Concat;
  }

  lemma DropRest(buf: seq<Byte>, offsets: seq<nat>, prev: nat, parts: seq<seq<Byte>>)
    requires Increasing(offsets) && prev <= |buf| && Concat(parts) == Dropped(buf, offsets, prev)
    requires prev == if offsets == [] then 0 else offsets[|offsets| - 1] + 1
    ensures Concat(parts + [buf[prev..]]) == Dropped(buf, offsets, |buf|)
  {
    DroppedBetween(buf, offsets, |offsets|, prev, |buf|);
    assert buf[prev..] == buf[prev..|buf|];
    ConcatAppend(parts, buf[prev..]);
    hide Concat, Dropped;
  }

  lemma NoParts(buf: seq<Byte>, offsets: seq<nat>)
    ensures Concat([]) == Dropped(buf, offsets, 0)
  {
  }

  lemma ConcatAppend(parts: seq<seq<Byte>>, part: seq<Byte>)
    ensures Concat(parts + [part]) == Concat(parts) + part
  {
    assert (parts + [part])[..|parts|] == parts;
  }

  /** Nothing is dropped between two neighbouring offsets. */
  lemma {:induction false} DroppedBetween(buf: seq<Byte>, offsets: seq<nat>, k: nat, from: nat, to: nat)
    requires Increasing(offsets) && k <= |offsets| && from <= to <= |buf|
    requires from == if k == 0 then 0 else offsets[k - 1] + 1
    requires k < |offsets| ==> to <= offsets[k]
    ensures Dropped(buf, offsets, to) == Dropped(buf, offsets, from) + buf[from..to]
  {
    if from < to {
      DroppedBetween(buf, offsets, k, from, to - 1);
      assert buf[from..to] == buf[from..to - 1] + [buf[to - 1]];
      assert to - 1 !in offsets;
    }
  }

  /** One pass over a buffer: what it drops are exactly the CRs of its CRLF pairs. */
  method Convert(buf: seq<Byte>) returns (crlf: nat, r: seq<Byte>)
    ensures r == Stripped(buf)
    ensures |r| == |buf| - crlf && WithoutCr(r) == WithoutCr(buf)
    ensures crlf == 0 <==> r == buf
    ensures crlf == 0 <==> forall i :: !PairAt(buf, i)
  {
    var offsets := FindCrOffsets(buf);
    if |offsets| > 0 {
      assert offsets[0] in offsets;
    }
    r := StripCr(buf, offsets);
    DroppedIsStripped(buf, offsets, 0);
    DroppedLength(buf, offsets, |buf|);
    OffsetsBelow(offsets, |buf|);
    StrippedKeepsOthers(buf);
    crlf := |offsets|;
    assert buf[0..] == buf;
    if crlf == 0 {
      NothingDropped(buf, offsets, |buf|);
    }
  }

  lemma {:induction false} NothingDropped(buf: seq<Byte>, offsets: seq<nat>, n: nat)
    requires offsets == [] && n <= |buf|
    ensures Dropped(buf, offsets, n) == buf[..n]
  {
    if n > 0 {
      NothingDropped(buf, offsets, n - 1);
    }
  }

  lemma {:induction false} DroppedIsStripped(buf: seq<Byte>, offsets: seq<nat>, n: nat)
    requires n <= |buf| && forall i :: i in offsets <==> PairAt(buf, i)
    ensures Dropped(buf, offsets, n) + Stripped(buf[n..]) == Dropped(buf, offsets, |buf|)
    decreases |buf| - n
  {
    if n < |buf| {
      DroppedIsStripped(buf, offsets, n + 1);
      var rest := buf[n..];
      assert rest[1..] == buf[n + 1..] && rest[0] == buf[n];
      assert n in offsets <==> |rest| > 1 && rest[0] == CR && rest[1] == LF;
    }
  }

  function Below(offsets: seq<nat>, n: nat): nat {
    if n == 0 then 0 else Below(offsets, n - 1) + if n - 1 in offsets then 1 else 0
  }

  lemma {:induction false} DroppedLength(buf: seq<Byte>, offsets: seq<nat>, n: nat)
    requires n <= |buf|
    ensures |Dropped(buf, offsets, n)| + Below(offsets, n) == n
  {
    if n > 0 {
      DroppedLength(buf, offsets, n - 1);
    }
  }

  lemma {:induction false} OffsetsBelow(offsets: seq<nat>, n: nat)
    requires Increasing(offsets) && forall o <- offsets :: o < n
    ensures Below(offsets, n) == |offsets|
  {
    if n > 0 {
      if n - 1 in offsets {
        var last := |offsets| - 1;
        var k :| 0 <= k < |offsets| && offsets[k] == n - 1;
        assert offsets[last] in offsets && k == last;
        var front := offsets[..last];
        forall o | o in front ensures o < n - 1 {
          var j :| 0 <= j < last && front[j] == o;
          assert offsets[j] < offsets[last];
        }
        OffsetsBelow(front, n - 1);
        SameBelow(offsets, front, n - 1);
      } else {
        OffsetsBelow(offsets, n - 1);
      }
    } else {
      HeadIsMember(offsets);
    }
  }

  lemma HeadIsMember(offsets: seq<nat>)
    ensures offsets == [] || offsets[0] in offsets
  {
  }

  lemma {:induction false} SameBelow(a: seq<nat>, b: seq<nat>, n: nat)
    requires forall k :: 0 <= k < n ==> (k in a <==> k in b)
    ensures Below(a, n) == Below(b, n)
  {
    if n > 0 {
      SameBelow(a, b, n - 1);
    }
  }

  function WithoutCr(buf: seq<Byte>): seq<Byte> {
    if buf == [] then [] else (if buf[0] == CR then [] else [buf[0]]) + WithoutCr(buf[1..])
  }

  lemma {:induction false} StrippedKeepsOthers(buf: seq<Byte>)
    ensures WithoutCr(Stripped(buf)) == WithoutCr(buf)
  {
    if buf != [] {
      StrippedKeepsOthers(buf[1..]);
      var more := Stripped(buf[1..]);
      if |buf| > 1 && buf[0] == CR && buf[1] == LF {
        assert [] + more == more;
      } else {
        assert ([buf[0]] + more)[1..] == more;
      }
    }
  }

  // How often a buffer must be converted until no CRLF is left.

  /** At least `k` CRs stand directly before the LF at `i`. */
  ghost predicate RunAt(buf: seq<Byte>, i: nat, k: nat) {
    k <= i < |buf| && buf[i] == LF && forall j :: i - k <= j < i ==> buf[j] == CR
  }

  ghost predicate HasRun(buf: seq<Byte>, k: nat) { exists i: nat :: RunAt(buf, i, k) }

  function Crs(n: nat): seq<Byte> { if n == 0 then [] else [CR] + Crs(n - 1) }

  /** The longest run of CRs before an LF, when `k` CRs have just been seen. */
  function Longest(buf: seq<Byte>, k: nat): nat {
    if buf == [] then 0
    else if buf[0] == CR then Longest(buf[1..], k + 1)
    else if buf[0] == LF then Max(k, Longest(buf[1..], 0))
    else Longest(buf[1..], 0)
  }

  function Minus(a: nat, b: nat): nat { if a > b then a - b else 0 }

  function Max(a: nat, b: nat): nat { if a > b then a else b }

  /** `Stripped`, when `k` CRs have just been seen and not yet written. */
  function StrippedAfter(buf: seq<Byte>, k: nat): seq<Byte> {
    if buf == [] then Crs(k)
    else if buf[0] == CR then StrippedAfter(buf[1..], k + 1)
    else if buf[0] == LF then Crs(Minus(k, 1)) + [LF] + StrippedAfter(buf[1..], 0)
    else Crs(k) + [buf[0]] + StrippedAfter(buf[1..], 0)
  }

  lemma {:induction false} CrsSplit(n: nat)
    ensures |Crs(n)| == n && (forall i :: 0 <= i < n ==> Crs(n)[i] == CR)
    ensures Crs(n + 1) == Crs(n) + [CR]
  {
    if n > 0 {
      CrsSplit(n - 1);
    }
  }

  lemma CrsFirst(n: nat, buf: seq<Byte>)
    ensures Crs(n) + ([CR] + buf) == Crs(n + 1) + buf
  {
    CrsSplit(n);
  }

  lemma StrippedCons(b: Byte, buf: seq<Byte>)
    ensures Stripped([b] + buf) == (if b == CR && buf != [] && buf[0] == LF then [] else [b]) + Stripped(buf)
  {
    assert ([b] + buf)[1..] == buf;
  }

  lemma {:induction false} StrippedOfRun(n: nat, buf: seq<Byte>)
    requires buf == [] || buf[0] != CR
    ensures Stripped(Crs(n) + buf) == Crs(if buf != [] && buf[0] == LF then Minus(n, 1) else n) + Stripped(buf)
  {
    hide Stripped;
    if n == 0 {
      assert Crs(0) + buf == buf;
      assert Crs(0) + Stripped(buf) == Stripped(buf);
    } else {
      StrippedOfRun(n - 1, buf);
      assert Crs(n) + buf == [CR] + (Crs(n - 1) + buf);
      StrippedCons(CR, Crs(n - 1) + buf);
      if buf != [] && buf[0] == LF {
        AfterRun(n - 1, buf, Stripped(buf));
      } else {
        assert [CR] + (Crs(n - 1) + Stripped(buf)) == Crs(n) + Stripped(buf);
      }
    }
  }

  lemma AfterRun(n: nat, buf: seq<Byte>, more: seq<Byte>)
    requires buf != [] && buf[0] == LF
    ensures (Crs(n) + buf)[0] == LF <==> n == 0
    ensures n == 0 ==> [] + (Crs(Minus(n, 1)) + more) == Crs(n) + more
    ensures n > 0 ==> [CR] + (Crs(Minus(n, 1)) + more) == Crs(n) + more
  {
  }

  lemma {:induction false} StrippedAfterRun(buf: seq<Byte>, k: nat)
    ensures StrippedAfter(buf, k) == Stripped(Crs(k) + buf)
  {
    hide Stripped, Crs;
    if buf == [] {
      StrippedOfRun(k, []);
      NothingStripped();
      assert Crs(k) + [] == Crs(k);
    } else if buf[0] == CR {
      StrippedAfterRun(buf[1..], k + 1);
      CrsFirst(k, buf[1..]);
      assert [CR] + buf[1..] == buf;
    } else {
      StrippedAfterRun(buf[1..], 0);
      StrippedOfRun(k, buf);
      NothingStripped();
      assert Crs(0) + buf[1..] == buf[1..];
      assert [buf[0]] + buf[1..] == buf;
      StrippedCons(buf[0], buf[1..]);
      var m := if buf[0] == LF then Minus(k, 1) else k;
      assert Crs(m) + ([buf[0]] + Stripped(buf[1..])) == Crs(m) + [buf[0]] + Stripped(buf[1..]);
    }
  }

  lemma NothingStripped()
    ensures Stripped([]) == [] && Crs(0) == []
  {
  }

  lemma {:induction false} LongestOfRun(n: nat, buf: seq<Byte>, k: nat)
    ensures Longest(Crs(n) + buf, k) == Longest(buf, n + k)
  {
    if n == 0 {
      assert Crs(0) + buf == buf;
    } else {
      assert (Crs(n) + buf)[1..] == Crs(n - 1) + buf;
      LongestOfRun(n - 1, buf, k + 1);
    }
  }

  /** One pass shortens the longest run by one. */
  lemma {:induction false} PassShortens(buf: seq<Byte>, k: nat)
    ensures Longest(StrippedAfter(buf, k), 0) == Minus(Longest(buf, k), 1)
  {
    if buf == [] {
      LongestOfRun(k, [], 0);
      assert Crs(k) + [] == Crs(k);
    } else if buf[0] == CR {
      PassShortens(buf[1..], k + 1);
    } else {
      PassShortens(buf[1..], 0);
      hide Crs;
      var m := if buf[0] == LF then Minus(k, 1) else k;
      var more := StrippedAfter(buf[1..], 0);
      assert Crs(m) + [buf[0]] + more == Crs(m) + ([buf[0]] + more);
      LongestOfRun(m, [buf[0]] + more, 0);
      assert ([buf[0]] + more)[1..] == more;
    }
  }

  /** `Longest` is what it says: the longest run there is. */
  lemma {:induction false} LongestIsRun(buf: seq<Byte>, k: nat, n: nat)
    requires n > 0
    ensures Longest(buf, k) >= n <==> HasRun(Crs(k) + buf, n)
  {
    var all := Crs(k) + buf;
    CrsSplit(k);
    if buf == [] {
    } else if buf[0] == CR {
      LongestIsRun(buf[1..], k + 1, n);
      CrsFirst(k, buf[1..]);
      assert [CR] + buf[1..] == buf;
    } else {
      LongestIsRun(buf[1..], 0, n);
      assert Crs(0) + buf[1..] == buf[1..];
      RunSplits(all, k, n);
      assert all[k + 1..] == buf[1..];
      assert all[k] == buf[0];
    }
  }

  /** A run does not reach across a byte that is not CR. */
  lemma RunSplits(all: seq<Byte>, k: nat, n: nat)
    requires n > 0 && k < |all| && all[k] != CR && forall i :: 0 <= i < k ==> all[i] == CR
    ensures HasRun(all, n) <==> (all[k] == LF && n <= k) || HasRun(all[k + 1..], n)
  {
    if i: nat :| RunAt(all, i, n) {
      if i > k {
        assert all[i - 1] == CR;
        assert RunAt(all[k + 1..], i - k - 1, n);
      }
    }
    if all[k] == LF && n <= k {
      assert RunAt(all, k, n);
    }
    var rest := all[k + 1..];
    if i: nat :| RunAt(rest, i, n) {
      assert RunAt(all, i + k + 1, n);
    }
  }

  function Passes(buf: seq<Byte>, n: nat): seq<Byte> {
    if n == 0 then buf else Stripped(Passes(buf, n - 1))
  }

  lemma {:induction false} PassesShorten(buf: seq<Byte>, n: nat)
    ensures Longest(Passes(buf, n), 0) == Minus(Longest(buf, 0), n)
  {
    if n > 0 {
      var before := Passes(buf, n - 1);
      PassesShorten(buf, n - 1);
      StrippedAfterRun(before, 0);
      PassShortens(before, 0);
      assert Crs(0) + before == before;
    }
  }

  /** No CRLF is left after `n` passes exactly if no LF had more than `n` CRs directly before it. */
  lemma CleanAfterExactly(buf: seq<Byte>, n: nat)
    ensures (forall i :: !PairAt(Passes(buf, n), i)) <==> !HasRun(buf, n + 1)
  {
    PassesShorten(buf, n);
    hide Longest, HasRun, Passes;
    LongestIsRun(buf, 0, n + 1);
    LongestIsRun(Passes(buf, n), 0, 1);
    assert Crs(0) + buf == buf && Crs(0) + Passes(buf, n) == Passes(buf, n);
    PairIsRun(Passes(buf, n));
  }

  lemma PairIsRun(buf: seq<Byte>)
    ensures (exists i :: PairAt(buf, i)) <==> HasRun(buf, 1)
  {
    if i :| PairAt(buf, i) {
      assert RunAt(buf, i + 1, 1);
    }
    if i: nat :| RunAt(buf, i, 1) {
      assert PairAt(buf, i - 1);
    }
  }

  /** So one conversion need not be enough: CR CR LF still holds a CRLF. */
  lemma OnePassIsNotEnough()
    ensures Stripped([CR, CR, LF]) == [CR, LF] && PairAt([CR, LF], 0)
  {
    assert [CR, CR, LF][1..] == [CR, LF] && [CR, LF][1..] == [LF] && [LF][1..] == [];
    assert Stripped([LF]) == [LF] && Stripped([CR, LF]) == [LF];
  }
}
