/** The loop resolver embedded in `execute_step` (main.c:382-417): the forward
    scan run by `[` on a zero cell and the backward scan run by `]` on a
    nonzero cell, each with a nesting counter, together with a
    counter-free definition of which brackets match. */
module Brackets {
  import opened Symbols
  import opened Optional

  /** Change in nesting contributed by one program byte. */
  function Delta(b: byte): int {
    if b == OPEN then 1 else if b == CLOSE then -1 else 0
  }

  /** Net nesting of `prog[a..b]`: the number of `[` minus the number of `]`. */
  function Depth(prog: seq<byte>, a: nat, b: nat): int
    requires a <= b <= |prog|
    decreases b - a
  {
    if a == b then 0 else Delta(prog[a]) + Depth(prog, a + 1, b)
  }

  lemma {:induction false} DepthSplit(prog: seq<byte>, a: nat, m: nat, b: nat)
    requires a <= m <= b <= |prog|
    ensures Depth(prog, a, b) == Depth(prog, a, m) + Depth(prog, m, b)
    decreases m - a
  {
    if a < m {
      DepthSplit(prog, a + 1, m, b);
    }
  }

  lemma DepthExtendRight(prog: seq<byte>, a: nat, b: nat)
    requires a < b <= |prog|
    ensures Depth(prog, a, b) == Depth(prog, a, b - 1) + Delta(prog[b - 1])
  {
    DepthSplit(prog, a, b - 1, b);
  }

  /** The `]` at `k` closes the `[` at `i`, read from the `[`: `prog[i..k+1]`
      is balanced and each of its proper prefixes still has an open `[`. */
  ghost predicate IsMatchFromOpen(prog: seq<byte>, i: nat, k: nat) {
    && i < k < |prog|
    && prog[i] == OPEN
    && prog[k] == CLOSE
    && Depth(prog, i, k + 1) == 0
    && forall m: nat :: i < m <= k ==> Depth(prog, i, m) > 0
  }

  /** The `[` at `i` opens the `]` at `k`, read from the `]`: `prog[i..k+1]`
      is balanced and each of its proper suffixes still has an unopened `]`. */
  ghost predicate IsMatchFromClose(prog: seq<byte>, k: nat, i: nat) {
    && i < k < |prog|
    && prog[k] == CLOSE
    && prog[i] == OPEN
    && var end := k + 1;
    && Depth(prog, i, end) == 0
    && forall m: nat :: i < m <= k ==> Depth(prog, m, end) < 0
  }

  /** Matching is symmetric: the `]` that a `[` looks for is exactly the `]`
      that looks back for that `[`. */
  lemma MatchSymmetric(prog: seq<byte>, i: nat, k: nat)
    ensures IsMatchFromOpen(prog, i, k) <==> IsMatchFromClose(prog, k, i)
  {
    if i < k < |prog| {
      var end := k + 1;
      forall m: nat | i < m <= k
        ensures Depth(prog, i, end) == Depth(prog, i, m) + Depth(prog, m, end)
      {
        DepthSplit(prog, i, m, end);
      }
    }
  }

  /** Every `[` before index `|prog|` has a matching `]` and every `]` a
      matching `[`: the program never drops below nesting zero and ends at
      it. */
  ghost predicate WellBracketed(prog: seq<byte>) {
    && Depth(prog, 0, |prog|) == 0
    && forall m :: 0 <= m <= |prog| ==> Depth(prog, 0, m) >= 0
  }

  /** The forward scan of main.c:384-397. `j` is the next index the scan
      reads, `nested` the number of `[` it has passed and not yet closed. The
      result is the index of the `]` that stops the scan, or None when the scan
      runs off the end of the program (main.c:387). */
  function ScanForward(prog: seq<byte>, j: nat, nested: nat): (r: Option<nat>)
    requires j <= |prog|
    ensures r.Some? ==> j <= r.value < |prog| && prog[r.value] == CLOSE
    decreases |prog| - j
  {
    if j == |prog| then None
    else if prog[j] == OPEN then ScanForward(prog, j + 1, nested + 1)
    else if prog[j] == CLOSE then
      if nested == 0 then Some(j) else ScanForward(prog, j + 1, nested - 1)
    else ScanForward(prog, j + 1, nested)
  }

  /** The backward scan of main.c:403-416. The scan still has the `e` bytes
      `prog[..e]` to its left, so it reads `prog[e-1]` next; `e == 0` means it
      has stepped below index 0, where the source's unsigned `ip` would wrap
      around. `nested` counts the `]` passed and not yet opened. The scan gives
      up on reaching index 0 while `nested` is nonzero (main.c:406) and
      whenever it steps below index 0. */
  function ScanBackward(prog: seq<byte>, e: nat, nested: nat): (r: Option<nat>)
    requires e <= |prog|
    ensures r.Some? ==> r.value < e && prog[r.value] == OPEN
  {
    if e == 0 then None
    else if e == 1 && nested != 0 then None
    else if prog[e - 1] == CLOSE then ScanBackward(prog, e - 1, nested + 1)
    else if prog[e - 1] == OPEN then
      if nested == 0 then Some(e - 1) else ScanBackward(prog, e - 1, nested - 1)
    else ScanBackward(prog, e - 1, nested)
  }

  /** The forward scan stops at the first index where the nesting, counted
      from `j` on top of `nested`, drops below zero; it finds nothing exactly
      when the nesting never drops below zero. */
  lemma {:induction false} ScanForwardSpec(prog: seq<byte>, j: nat, nested: nat)
    requires j <= |prog|
    ensures ScanForward(prog, j, nested).Some? ==>
              var k := ScanForward(prog, j, nested).value;
              && nested + Depth(prog, j, k + 1) == -1
              && forall m :: j <= m <= k ==> nested + Depth(prog, j, m) >= 0
    ensures ScanForward(prog, j, nested).None? ==>
              forall m :: j <= m <= |prog| ==> nested + Depth(prog, j, m) >= 0
    decreases |prog| - j
  {
    if j < |prog| {
      var n' := nested + Delta(prog[j]);
      if prog[j] == CLOSE && nested == 0 {
      } else {
        assert n' >= 0;
        ScanForwardSpec(prog, j + 1, n');
        assert ScanForward(prog, j, nested) == ScanForward(prog, j + 1, n');
      }
    }
  }

  /** The backward scan stops at the nearest index where the nesting, counted
      back from `e` on top of `nested`, rises above zero; it finds nothing
      exactly when no such index exists. */
  lemma {:induction false} ScanBackwardSpec(prog: seq<byte>, e: nat, nested: nat)
    requires e <= |prog|
    ensures ScanBackward(prog, e, nested).Some? ==>
              var k := ScanBackward(prog, e, nested).value;
              && nested - Depth(prog, k, e) == -1
              && forall m: nat :: k < m <= e ==> nested - Depth(prog, m, e) >= 0
    ensures ScanBackward(prog, e, nested).None? ==>
              forall m: nat :: m <= e ==> nested - Depth(prog, m, e) >= 0
  {
    if e == 0 {
    } else if e == 1 && nested != 0 {
      assert Depth(prog, 0, 1) == Delta(prog[0]);
    } else if prog[e - 1] == OPEN && nested == 0 {
      assert Depth(prog, e - 1, e) == 1;
    } else {
      var n' := nested - Delta(prog[e - 1]);
      ScanBackwardSpec(prog, e - 1, n');
      assert ScanBackward(prog, e, nested) == ScanBackward(prog, e - 1, n');
      forall m: nat | m < e
        ensures Depth(prog, m, e) == Depth(prog, m, e - 1) + Delta(prog[e - 1])
      {
        DepthExtendRight(prog, m, e);
      }
    }
  }

  /** The forward scan started just after a `[` finds exactly its matching
      `]`, and finds nothing exactly when the `[` has no match. */
  lemma ForwardScanFindsMatch(prog: seq<byte>, i: nat)
    requires i < |prog| && prog[i] == OPEN
    ensures forall k: nat :: ScanForward(prog, i + 1, 0) == Some(k) <==> IsMatchFromOpen(prog, i, k)
    ensures ScanForward(prog, i + 1, 0).None? <==> forall k: nat :: !IsMatchFromOpen(prog, i, k)
  {
    ScanForwardSpec(prog, i + 1, 0);
    forall m | i + 1 <= m <= |prog|
      ensures Depth(prog, i, m) == 1 + Depth(prog, i + 1, m)
    {
    }
    forall k: nat | IsMatchFromOpen(prog, i, k)
      ensures ScanForward(prog, i + 1, 0) == Some(k)
    {
      assert Depth(prog, i + 1, k + 1) == -1;
      var r := ScanForward(prog, i + 1, 0);
      assert r.Some?;
      assert r.value <= k;
      assert Depth(prog, i, r.value + 1) == 0;
      assert r.value >= k;
    }
    if ScanForward(prog, i + 1, 0).Some? {
      var k := ScanForward(prog, i + 1, 0).value;
      assert Depth(prog, i, k + 1) == 1 + Depth(prog, i + 1, k + 1);
      assert IsMatchFromOpen(prog, i, k);
    }
  }

  /** The backward scan started just before a `]` finds exactly its matching
      `[`, and finds nothing exactly when the `]` has no match. */
  lemma BackwardScanFindsMatch(prog: seq<byte>, k: nat)
    requires k < |prog| && prog[k] == CLOSE
    ensures forall i: nat :: ScanBackward(prog, k, 0) == Some(i) <==> IsMatchFromClose(prog, k, i)
    ensures ScanBackward(prog, k, 0).None? <==> forall i: nat :: !IsMatchFromClose(prog, k, i)
  {
    ScanBackwardSpec(prog, k, 0);
    var r := ScanBackward(prog, k, 0);
    forall m: nat | m <= k
      ensures Depth(prog, m, k + 1) == Depth(prog, m, k) - 1
    {
      DepthExtendRight(prog, m, k + 1);
    }
    forall i: nat | IsMatchFromClose(prog, k, i)
      ensures r == Some(i)
    {
      assert Depth(prog, i, k) == 1;
    }
    if r.Some? {
      var i := r.value;
      var end := k + 1;
      assert Depth(prog, i, end) == 0;
      forall m: nat | i < m <= k
        ensures Depth(prog, m, end) < 0
      {
        assert 0 - Depth(prog, m, k) >= 0;
      }
    }
  }

  /** The two scans are inverse to each other: the forward scan from the `[`
      at `i` stops at the `]` at `k` if and only if the backward scan from
      that `]` stops at the `[` at `i`. */
  lemma ScansAreInverse(prog: seq<byte>, i: nat, k: nat)
    requires i < |prog| && prog[i] == OPEN
    requires k < |prog| && prog[k] == CLOSE
    ensures ScanForward(prog, i + 1, 0) == Some(k) <==> ScanBackward(prog, k, 0) == Some(i)
  {
    ForwardScanFindsMatch(prog, i);
    BackwardScanFindsMatch(prog, k);
    MatchSymmetric(prog, i, k);
  }

  /** In a well-bracketed program neither scan ever fails: every `[` finds a
      `]` going forward and every `]` finds a `[` going back. */
  lemma WellBracketedScansSucceed(prog: seq<byte>, i: nat)
    requires WellBracketed(prog) && i < |prog|
    ensures prog[i] == OPEN ==> ScanForward(prog, i + 1, 0).Some?
    ensures prog[i] == CLOSE ==> ScanBackward(prog, i, 0).Some?
  {
    DepthExtendRight(prog, 0, i + 1);
    if prog[i] == OPEN {
      ScanForwardSpec(prog, i + 1, 0);
      DepthSplit(prog, 0, i + 1, |prog|);
      assert Depth(prog, i + 1, |prog|) < 0;
    }
    if prog[i] == CLOSE {
      ScanBackwardSpec(prog, i, 0);
      assert Depth(prog, 0, i) >= 1;
    }
  }
}
