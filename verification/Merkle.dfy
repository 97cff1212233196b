/** The Merkle tree of crates/algorithms/src/storage.rs:4-115, over any hash
    function with 32-byte results. */
module Merkle {
  import opened Options
  import opened Bytes
  import opened Numbers

  type Digest = d: seq<Byte> | |d| == 32 witness seq(32, _ => 0)

  type Hash = seq<Byte> -> Digest

  /** A sibling, and whether it stands to the right. */
  type ProofStep = (Digest, bool)

  function Join(a: seq<Byte>, b: seq<Byte>): seq<Byte> {
    a + b
  }

  // --- building

  function Parent(hash: Hash, level: seq<Digest>, i: nat): Digest
    requires 2 * i < |level|
  {
    if 2 * i + 1 < |level| then hash(Join(level[2 * i], level[2 * i + 1])) else level[2 * i]
  }

  /** `next` pairs up the level; an odd last node is promoted as it is. */
  ghost predicate PairsUp(hash: Hash, level: seq<Digest>, next: seq<Digest>) {
    && |next| == (|level| + 1) / 2
    && forall i :: 0 <= i < |next| ==> next[i] == Parent(hash, level, i)
  }

  /** Levels under construction, leaves first: each pairs up the one before. */
  ghost predicate Growing(hash: Hash, leaves: seq<Digest>, levels: seq<seq<Digest>>) {
    && |levels| > 0 && levels[0] == leaves
    && (forall k: nat :: k + 1 < |levels| ==> Above(hash, levels, k))
    && |levels[|levels| - 1]| > 0
  }

  ghost predicate Above(hash: Hash, levels: seq<seq<Digest>>, k: nat)
    requires k + 1 < |levels|
  {
    |levels[k]| > 1 && PairsUp(hash, levels[k], levels[k + 1])
  }

  /** The levels of a finished tree end with the root alone. */
  ghost predicate Built(hash: Hash, leaves: seq<Digest>, levels: seq<seq<Digest>>, root: Option<Digest>) {
    if leaves == [] then levels == [] && root == None
    else
      && Growing(hash, leaves, levels)
      && |levels[|levels| - 1]| == 1 && root == Some(levels[|levels| - 1][0])
  }

  lemma Grow(hash: Hash, leaves: seq<Digest>, levels: seq<seq<Digest>>, next: seq<Digest>)
    requires Growing(hash, leaves, levels) && |levels[|levels| - 1]| > 1 && PairsUp(hash, levels[|levels| - 1], next)
    ensures Growing(hash, leaves, levels + [next])
  {
    hide PairsUp;
    var more := levels + [next];
    PairsSize(hash, levels[|levels| - 1], next);
    forall k: nat | k + 1 < |more| ensures Above(hash, more, k) {
      if k + 1 < |levels| {
        assert Above(hash, levels, k);
      }
      assert more[k] == levels[k];
    }
  }

  lemma PairsSize(hash: Hash, level: seq<Digest>, next: seq<Digest>)
    requires PairsUp(hash, level, next)
    ensures |next| == (|level| + 1) / 2
  {
  }

  method PairUp(hash: Hash, level: seq<Digest>) returns (next: seq<Digest>)
    ensures PairsUp(hash, level, next)
    ensures forall i :: 0 <= i < |next| ==>
              var left: seq<Byte> := level[2 * i];
              next[i] == if 2 * i + 1 < |level| then hash(left + level[2 * i + 1]) else left
  {
    next := [];
    var at := 0;
    while at < |level|
      invariant 0 <= at <= |level| + 1 && at == 2 * |next|
      invariant |next| <= (|level| + 1) / 2
      invariant forall i :: 0 <= i < |next| ==> next[i] == Parent(hash, level, i)
    {
      if at + 1 < |level| {
        next := next + [hash(Join(level[at], level[at + 1]))];
      } else {
        next := next + [level[at]];
      }
      at := at + 2;
    }
  }

  // --- proofs

  function Combine(h: Digest, step: ProofStep): seq<Byte> {
    if step.1 then Join(h, step.0) else Join(step.0, h)
  }

  function Fold(hash: Hash, h: Digest, proof: seq<ProofStep>): Digest {
    if proof == [] then h
    else hash(Combine(Fold(hash, h, proof[..|proof| - 1]), proof[|proof| - 1]))
  }

  function Sibling(idx: nat): nat {
    if idx % 2 == 0 then idx + 1 else idx - 1
  }

  /** The position of the leaf's ancestor `k` levels up. */
  function Ancestor(idx: nat, k: nat): nat {
    if k == 0 then idx else Ancestor(idx, k - 1) / 2
  }

  /** The siblings of the leaf's ancestors below level `k`. */
  function ProofTo(levels: seq<seq<Digest>>, idx: nat, k: nat): seq<ProofStep>
    requires k <= |levels|
  {
    if k == 0 then []
    else
      var a := Ancestor(idx, k - 1);
      ProofTo(levels, idx, k - 1)
      + if Sibling(a) < |levels[k - 1]| then [(levels[k - 1][Sibling(a)], a % 2 == 0)] else []
  }

  lemma ParentFold(hash: Hash, level: seq<Digest>, next: seq<Digest>, a: nat)
    requires PairsUp(hash, level, next) && a < |level|
    ensures a / 2 < |next|
    ensures next[a / 2] ==
            if Sibling(a) < |level| then hash(Combine(level[a], (level[Sibling(a)], a % 2 == 0))) else level[a]
  {
    assert next[a / 2] == Parent(hash, level, a / 2);
    assert a == 2 * (a / 2) + a % 2;
  }

  /** Folding the first k siblings into a leaf gives its ancestor at level k. */
  lemma {:induction false} FoldToAncestor(hash: Hash, leaves: seq<Digest>, levels: seq<seq<Digest>>, idx: nat, k: nat)
    requires Growing(hash, leaves, levels) && idx < |leaves| && k < |levels|
    ensures Ancestor(idx, k) < |levels[k]|
    ensures Fold(hash, leaves[idx], ProofTo(levels, idx, k)) == levels[k][Ancestor(idx, k)]
    ensures |ProofTo(levels, idx, k)| <= k
  {
    if k > 0 {
      FoldToAncestor(hash, leaves, levels, idx, k - 1);
      hide PairsUp, Combine;
      assert Above(hash, levels, k - 1);
      var a := Ancestor(idx, k - 1);
      ParentFold(hash, levels[k - 1], levels[k], a);
      var before, after := ProofTo(levels, idx, k - 1), ProofTo(levels, idx, k);
      if Sibling(a) < |levels[k - 1]| {
        assert after[..|after| - 1] == before;
      } else {
        assert after == before;
      }
    }
  }

  /** Level k of n leaves has the ceiling of n / 2^k nodes. */
  lemma {:induction false} LevelSize(hash: Hash, leaves: seq<Digest>, levels: seq<seq<Digest>>, k: nat)
    requires Growing(hash, leaves, levels) && k < |levels|
    ensures (|levels[k]| - 1) * Pow2(k) < |leaves| <= |levels[k]| * Pow2(k)
  {
    if k > 0 {
      LevelSize(hash, leaves, levels, k - 1);
      hide PairsUp;
      assert Above(hash, levels, k - 1);
      PairsSize(hash, levels[k - 1], levels[k]);
      hide Growing;
      SizeStep(|levels[k - 1]|, |levels[k]|, Pow2(k - 1), |leaves|);
    }
  }

  lemma SizeStep(m: nat, next: nat, p: nat, n: nat)
    requires next == (m + 1) / 2 && p > 0 && (m - 1) * p < n <= m * p
    ensures (next - 1) * (2 * p) < n <= next * (2 * p)
  {
    assert 2 * (next - 1) <= m - 1 && m <= 2 * next;
    assert (next - 1) * (2 * p) == (2 * (next - 1)) * p;
    assert next * (2 * p) == (2 * next) * p;
    MulMonotone(2 * (next - 1), m - 1, p);
    MulMonotone(m, 2 * next, p);
  }

  lemma MulMonotone(a: int, b: int, p: nat)
    requires a <= b
    ensures a * p <= b * p
  {
  }

  /** The tree has the least height h with at most 2^h leaves. */
  lemma Height(hash: Hash, leaves: seq<Digest>, levels: seq<seq<Digest>>, root: Option<Digest>)
    requires Built(hash, leaves, levels, root) && leaves != []
    ensures |leaves| <= Pow2(|levels| - 1)
    ensures |levels| > 1 ==> Pow2(|levels| - 2) < |leaves|
  {
    hide PairsUp, Pow2;
    var h := |levels| - 1;
    LevelSize(hash, leaves, levels, h);
    if h > 0 {
      LevelSize(hash, leaves, levels, h - 1);
      assert Above(hash, levels, h - 1);
      MulMonotone(1, |levels[h - 1]| - 1, Pow2(h - 1));
    }
  }

  // --- the root from above

  /** The largest power of two below `n`. */
  function SplitAt(n: nat): (k: nat)
    requires n >= 2
    ensures 0 < k < n <= 2 * k
  {
    if n == 2 then 1 else 2 * SplitAt((n + 1) / 2)
  }

  lemma {:induction false} SplitIsPower(n: nat) returns (j: nat)
    requires n >= 2
    ensures SplitAt(n) == Pow2(j)
  {
    if n == 2 {
      j := 0;
    } else {
      var i := SplitIsPower((n + 1) / 2);
      j := i + 1;
    }
  }

  /** The hash of a list of leaves: a leaf is its own, and more are split at the
      largest power of two below their number. */
  function TreeHash(hash: Hash, leaves: seq<Digest>): Digest
    requires leaves != []
    decreases |leaves|
  {
    if |leaves| == 1 then leaves[0]
    else hash(TreeHash(hash, leaves[..SplitAt(|leaves|)]) + TreeHash(hash, leaves[SplitAt(|leaves|)..]))
  }

  lemma PairsParts(hash: Hash, level: seq<Digest>, next: seq<Digest>, half: nat)
    requires PairsUp(hash, level, next) && 2 * half <= |level|
    ensures half <= |next|
    ensures PairsUp(hash, level[..2 * half], next[..half]) && PairsUp(hash, level[2 * half..], next[half..])
  {
    hide Join;
    var a, b, c, d := level[..2 * half], next[..half], level[2 * half..], next[half..];
    forall i | 0 <= i < |b| ensures b[i] == Parent(hash, a, i) {
      assert b[i] == next[i] && next[i] == Parent(hash, level, i);
      assert a[2 * i] == level[2 * i] && a[2 * i + 1] == level[2 * i + 1];
    }
    forall i | 0 <= i < |d| ensures d[i] == Parent(hash, c, i) {
      assert d[i] == next[half + i] && next[half + i] == Parent(hash, level, half + i);
      assert c[2 * i] == level[2 * (half + i)];
      if 2 * i + 1 < |c| {
        assert c[2 * i + 1] == level[2 * (half + i) + 1];
      }
    }
  }

  lemma PairOfTwo(hash: Hash, level: seq<Digest>, next: seq<Digest>)
    requires PairsUp(hash, level, next) && 1 <= |level| <= 2
    ensures |next| == 1
    ensures
      var left: seq<Byte> := level[0];
      next[0] == if |level| == 1 then left else hash(left + level[1])
  {
    assert next[0] == Parent(hash, level, 0);
  }

  lemma TreeOfTwo(hash: Hash, leaves: seq<Digest>)
    requires |leaves| == 2
    ensures
      var left: seq<Byte> := leaves[0];
      TreeHash(hash, leaves) == hash(left + leaves[1])
  {
    assert SplitAt(2) == 1;
    assert leaves[..1] == [leaves[0]] && leaves[1..] == [leaves[1]];
  }

  lemma TreeSplit(hash: Hash, leaves: seq<Digest>)
    requires |leaves| >= 2
    ensures TreeHash(hash, leaves) ==
            hash(TreeHash(hash, leaves[..SplitAt(|leaves|)]) + TreeHash(hash, leaves[SplitAt(|leaves|)..]))
  {
  }

  /** Pairing neighbours, with an odd last node as it is, keeps the hash. */
  lemma {:induction false} PairingKeeps(hash: Hash, level: seq<Digest>, next: seq<Digest>)
    requires PairsUp(hash, level, next) && level != []
    ensures next != [] && TreeHash(hash, next) == TreeHash(hash, level)
    decreases |level|
  {
    PairsSize(hash, level, next);
    hide PairsUp, TreeHash, SplitAt;
    if |level| <= 2 {
      PairOfTwo(hash, level, next);
      TreeOfOne(hash, next);
      if |level| == 2 {
        TreeOfTwo(hash, level);
      } else {
        assert next == level;
      }
    } else {
      var half := SplitAt(|next|);
      assert SplitAt(|level|) == 2 * half by { SplitDoubles(|level|); }
      PairsParts(hash, level, next, half);
      PairingKeeps(hash, level[..2 * half], next[..half]);
      PairingKeeps(hash, level[2 * half..], next[half..]);
      TreeSplit(hash, level);
      TreeSplit(hash, next);
    }
  }

  lemma TreeOfOne(hash: Hash, leaves: seq<Digest>)
    requires |leaves| == 1
    ensures TreeHash(hash, leaves) == leaves[0]
  {
  }

  lemma SplitDoubles(n: nat)
    requires n > 2
    ensures SplitAt(n) == 2 * SplitAt((n + 1) / 2)
  {
  }

  /** The root of a finished tree is the hash of its leaves from above. */
  lemma RootIsTreeHash(hash: Hash, leaves: seq<Digest>, levels: seq<seq<Digest>>, root: Option<Digest>)
    requires Built(hash, leaves, levels, root) && leaves != []
    ensures root == Some(TreeHash(hash, leaves))
  {
    hide PairsUp, Above, TreeHash;
    LevelHash(hash, leaves, levels, |levels| - 1);
    TreeOfOne(hash, levels[|levels| - 1]);
  }

  lemma {:induction false} LevelHash(hash: Hash, leaves: seq<Digest>, levels: seq<seq<Digest>>, k: nat)
    requires Growing(hash, leaves, levels) && leaves != [] && k < |levels|
    ensures levels[k] != [] && TreeHash(hash, levels[k]) == TreeHash(hash, leaves)
  {
    hide PairsUp, TreeHash;
    if k > 0 {
      LevelHash(hash, leaves, levels, k - 1);
      assert Above(hash, levels, k - 1);
      PairingKeeps(hash, levels[k - 1], levels[k]);
    }
  }

  // --- the fold from below

  /** The digest reached from `h`: each sibling joins on the side it stands on. */
  function Climb(hash: Hash, h: Digest, proof: seq<ProofStep>): Digest
    decreases |proof|
  {
    if proof == [] then h
    else Climb(hash, hash(if proof[0].1 then h + proof[0].0 else proof[0].0 + h), proof[1..])
  }

  lemma {:induction false} ClimbAppend(hash: Hash, h: Digest, proof: seq<ProofStep>, step: ProofStep)
    ensures Climb(hash, h, proof + [step]) ==
            var below := Climb(hash, h, proof);
            hash(if step.1 then below + step.0 else step.0 + below)
    decreases |proof|
  {
    if proof == [] {
      assert ([] + [step])[1..] == [];
    } else {
      assert (proof + [step])[1..] == proof[1..] + [step];
      ClimbAppend(hash, hash(if proof[0].1 then h + proof[0].0 else proof[0].0 + h), proof[1..], step);
    }
  }

  lemma {:induction false} FoldIsClimb(hash: Hash, h: Digest, proof: seq<ProofStep>)
    ensures Fold(hash, h, proof) == Climb(hash, h, proof)
  {
    if proof != [] {
      var init, last := proof[..|proof| - 1], proof[|proof| - 1];
      FoldIsClimb(hash, h, init);
      ClimbAppend(hash, h, init, last);
      assert proof == init + [last];
    }
  }

  // --- what is hashed

  /** What folding `proof` into `h` hashes at step `i`. */
  function StepText(hash: Hash, h: Digest, proof: seq<ProofStep>, i: nat): seq<Byte>
    requires i < |proof|
  {
    Combine(Fold(hash, h, proof[..i]), proof[i])
  }

  /** What verifying `x` with `proof` hashes: first `x`, then step by step. */
  function VerifyText(hash: Hash, x: seq<Byte>, proof: seq<ProofStep>, n: nat): seq<Byte>
    requires n <= |proof|
  {
    if n == 0 then x else StepText(hash, hash(x), proof, n - 1)
  }

  /** What building a tree hashes, by the place in the tree it is hashed for. */
  datatype Place = DataAt(i: nat) | PairAt(k: nat, i: nat)

  predicate InTree(data: seq<seq<Byte>>, levels: seq<seq<Digest>>, p: Place) {
    match p
    case DataAt(i) => i < |data|
    case PairAt(k, i) => k + 1 < |levels| && 2 * i + 1 < |levels[k]|
  }

  function BuildText(data: seq<seq<Byte>>, levels: seq<seq<Digest>>, p: Place): seq<Byte>
    requires InTree(data, levels, p)
  {
    match p
    case DataAt(i) => data[i]
    case PairAt(k, i) => Join(levels[k][2 * i], levels[k][2 * i + 1])
  }

  /** Every hash into 32 bytes has collisions; what a lemma below has to say is
      between which of the texts hashed in a computation it finds one. */
  ghost predicate Collision(hash: Hash, x: seq<Byte>, y: seq<Byte>) {
    x != y && hash(x) == hash(y)
  }

  lemma FoldNothing(hash: Hash, h: Digest)
    ensures Fold(hash, h, []) == h
  {
  }

  /** The digest reached after `n` steps is that of what was hashed last. */
  lemma FoldText(hash: Hash, x: seq<Byte>, proof: seq<ProofStep>, n: nat)
    requires n <= |proof|
    ensures Fold(hash, hash(x), proof[..n]) == hash(VerifyText(hash, x, proof, n))
  {
    hide Combine;
    if n > 0 {
      assert proof[..n][..n - 1] == proof[..n - 1];
    }
  }

  // --- forgeries

  lemma CombineInjective(g: Digest, s: ProofStep, h: Digest, t: ProofStep)
    requires s.1 == t.1 && (g != h || s.0 != t.0)
    ensures Combine(g, s) != Combine(h, t)
  {
    if s.1 {
      assert Combine(g, s)[..32] == g && Combine(g, s)[32..] == s.0;
      assert Combine(h, t)[..32] == h && Combine(h, t)[32..] == t.0;
    } else {
      assert Combine(g, s)[..32] == s.0 && Combine(g, s)[32..] == g;
      assert Combine(h, t)[..32] == t.0 && Combine(h, t)[32..] == h;
    }
  }

  /** Where two digests, or two lists of siblings, fold to the same digest along
      the same directions, the two folds hash different texts to one digest at
      one and the same step. */
  lemma {:induction false} FoldForgery(hash: Hash, g: Digest, p: seq<ProofStep>, h: Digest, q: seq<ProofStep>)
      returns (i: nat)
    requires |p| == |q| && forall i :: 0 <= i < |p| ==> p[i].1 == q[i].1
    requires (g != h || p != q) && Fold(hash, g, p) == Fold(hash, h, q)
    ensures i < |p| && Collision(hash, StepText(hash, g, p, i), StepText(hash, h, q, i))
  {
    hide Combine;
    FoldNothing(hash, g);
    FoldNothing(hash, h);
    assert p != [];
    var k := |p| - 1;
    var a, b := Fold(hash, g, p[..k]), Fold(hash, h, q[..k]);
    if a == b && p[k].0 == q[k].0 {
      assert p == p[..k] + [p[k]] && q == q[..k] + [q[k]];
      i := FoldForgery(hash, g, p[..k], h, q[..k]);
      assert p[..k][..i] == p[..i] && q[..k][..i] == q[..i];
    } else {
      CombineInjective(a, p[k], b, q[k]);
      i := k;
    }
  }

  /** Other data that verifies with an honest proof, or with one of the same
      directions: the two verifications hash different texts to one digest at one
      and the same step. */
  lemma DataForgery(hash: Hash, data: seq<Byte>, p: seq<ProofStep>, other: seq<Byte>, q: seq<ProofStep>)
      returns (n: nat)
    requires |p| == |q| && forall i :: 0 <= i < |p| ==> p[i].1 == q[i].1
    requires (data != other || p != q) && Fold(hash, hash(data), p) == Fold(hash, hash(other), q)
    ensures n <= |p| && Collision(hash, VerifyText(hash, data, p, n), VerifyText(hash, other, q, n))
  {
    hide Fold, StepText;
    if data != other && hash(data) == hash(other) {
      n := 0;
    } else {
      var i := FoldForgery(hash, hash(data), p, hash(other), q);
      n := i + 1;
    }
  }

  lemma {:induction false} LevelForgery(hash: Hash, a: seq<Digest>, b: seq<Digest>, next: seq<Digest>)
      returns (i: nat)
    requires PairsUp(hash, a, next) && PairsUp(hash, b, next) && |a| == |b| && a != b
    ensures 2 * i + 1 < |a| && Collision(hash, Join(a[2 * i], a[2 * i + 1]), Join(b[2 * i], b[2 * i + 1]))
  {
    var j :| 0 <= j < |a| && a[j] != b[j];
    i := j / 2;
    assert next[i] == Parent(hash, a, i) && next[i] == Parent(hash, b, i);
    var x, y := Join(a[2 * i], a[2 * i + 1]), Join(b[2 * i], b[2 * i + 1]);
    assert x[..32] == a[2 * i] && x[32..] == a[2 * i + 1];
    assert y[..32] == b[2 * i] && y[32..] == b[2 * i + 1];
  }

  function HashAll(hash: Hash, data: seq<seq<Byte>>): seq<Digest> {
    seq(|data|, i requires 0 <= i < |data| => hash(data[i]))
  }

  lemma {:induction false} TopForgery(hash: Hash, a: seq<Digest>, la: seq<seq<Digest>>, b: seq<Digest>,
                                      lb: seq<seq<Digest>>, top: nat)
      returns (k: nat, i: nat)
    requires Growing(hash, a, la) && Growing(hash, b, lb) && |a| == |b| && a != b
    requires top < |la| && top < |lb| && la[top] == lb[top]
    ensures k < top && 2 * i + 1 < |la[k]| && 2 * i + 1 < |lb[k]|
    ensures Collision(hash, Join(la[k][2 * i], la[k][2 * i + 1]), Join(lb[k][2 * i], lb[k][2 * i + 1]))
  {
    hide PairsUp;
    assert top > 0;
    assert Above(hash, la, top - 1) && Above(hash, lb, top - 1);
    if la[top - 1] == lb[top - 1] {
      k, i := TopForgery(hash, a, la, b, lb, top - 1);
    } else {
      SameSizes(hash, a, la, b, lb, top - 1);
      k := top - 1;
      i := LevelForgery(hash, la[k], lb[k], la[top]);
    }
  }

  lemma {:induction false} SameSizes(hash: Hash, a: seq<Digest>, la: seq<seq<Digest>>, b: seq<Digest>,
                                     lb: seq<seq<Digest>>, k: nat)
    requires Growing(hash, a, la) && Growing(hash, b, lb) && |a| == |b| && k < |la| && k < |lb|
    ensures |la[k]| == |lb[k]|
  {
    if k > 0 {
      hide PairsUp;
      SameSizes(hash, a, la, b, lb, k - 1);
      assert Above(hash, la, k - 1) && Above(hash, lb, k - 1);
      PairsSize(hash, la[k - 1], la[k]);
      PairsSize(hash, lb[k - 1], lb[k]);
    }
  }

  /** Trees of equally many leaves that hold different data have the same root only
      if building them hashes different texts to one digest for the same place. */
  lemma RootBinds(hash: Hash, a: seq<seq<Byte>>, la: seq<seq<Digest>>, b: seq<seq<Byte>>, lb: seq<seq<Digest>>,
                  root: Option<Digest>)
      returns (p: Place)
    requires |a| == |b| && a != b
    requires Built(hash, HashAll(hash, a), la, root) && Built(hash, HashAll(hash, b), lb, root)
    ensures InTree(a, la, p) && InTree(b, lb, p) && Collision(hash, BuildText(a, la, p), BuildText(b, lb, p))
  {
    hide Growing;
    var ha, hb := HashAll(hash, a), HashAll(hash, b);
    if ha == hb {
      var i :| 0 <= i < |a| && a[i] != b[i];
      assert ha[i] == hb[i];
      p := DataAt(i);
    } else {
      hide HashAll;
      var top := SameHeight(hash, ha, la, hb, lb, root);
      var k, i := TopForgery(hash, ha, la, hb, lb, top);
      p := PairAt(k, i);
    }
  }

  lemma SameHeight(hash: Hash, a: seq<Digest>, la: seq<seq<Digest>>, b: seq<Digest>, lb: seq<seq<Digest>>,
                   root: Option<Digest>)
      returns (k: nat)
    requires Built(hash, a, la, root) && Built(hash, b, lb, root) && |a| == |b| > 0
    ensures k < |la| && k < |lb| && la[k] == lb[k]
  {
    hide PairsUp;
    k := if |la| <= |lb| then |la| - 1 else |lb| - 1;
    SameSizes(hash, a, la, b, lb, k);
    assert k + 1 < |la| ==> Above(hash, la, k);
    assert k + 1 < |lb| ==> Above(hash, lb, k);
  }

  // --- what verifies

  /** The siblings on the way up from node `i` of level `k`. */
  function PathUp(levels: seq<seq<Digest>>, k: nat, i: nat): seq<ProofStep>
    requires k < |levels|
    decreases |levels| - k
  {
    if k + 1 == |levels| then []
    else
      (if Sibling(i) < |levels[k]| then [(levels[k][Sibling(i)], i % 2 == 0)] else [])
      + PathUp(levels, k + 1, i / 2)
  }

  /** From a leaf that is the proof that is generated for it. */
  lemma {:induction false} PathIsProof(levels: seq<seq<Digest>>, idx: nat, k: nat)
    requires k < |levels|
    ensures ProofTo(levels, idx, |levels| - 1) == ProofTo(levels, idx, k) + PathUp(levels, k, Ancestor(idx, k))
    decreases |levels| - k
  {
    if k + 1 < |levels| {
      PathIsProof(levels, idx, k + 1);
    }
  }

  /** Why some data verifies with a proof against the root of a tree: after `n`
      steps a leaf's data is hashed, or the data is the join of two sibling nodes,
      and the rest of the proof is the way up from there; or else after `n` steps
      another text is hashed than the tree has at a place, to the same digest. */
  datatype Evidence = FromLeaf(i: nat, n: nat) | FromPair(k: nat, i: nat) | Clash(n: nat, p: Place)

  ghost predicate Explains(hash: Hash, data: seq<seq<Byte>>, levels: seq<seq<Digest>>, x: seq<Byte>,
                           proof: seq<ProofStep>, v: Evidence)
    requires |levels| > 0
  {
    match v
    case FromLeaf(i, n) =>
      && i < |data| && n <= |proof|
      && VerifyText(hash, x, proof, n) == data[i] && proof[n..] == PathUp(levels, 0, i)
    case FromPair(k, i) =>
      && InTree(data, levels, PairAt(k, i))
      && x == BuildText(data, levels, PairAt(k, i)) && proof == PathUp(levels, k + 1, i)
    case Clash(n, p) =>
      && n <= |proof| && InTree(data, levels, p)
      && Collision(hash, VerifyText(hash, x, proof, n), BuildText(data, levels, p))
  }

  /** From a node that the fold has arrived at after `m` steps, the rest of the
      proof being the way up from it, down to what was hashed there. */
  lemma {:induction false} Descend(hash: Hash, data: seq<seq<Byte>>, levels: seq<seq<Digest>>, k: nat, i: nat,
                                   x: seq<Byte>, proof: seq<ProofStep>, m: nat) returns (v: Evidence)
    requires Growing(hash, HashAll(hash, data), levels) && k < |levels| && i < |levels[k]|
    requires m <= |proof| && proof[m..] == PathUp(levels, k, i)
    requires Fold(hash, hash(x), proof[..m]) == levels[k][i]
    ensures Explains(hash, data, levels, x, proof, v)
    decreases k
  {
    hide PairsUp, Above, Combine, Fold, PathUp, VerifyText, Join;
    FoldText(hash, x, proof, m);
    var text := VerifyText(hash, x, proof, m);
    if k == 0 {
      assert levels[0][i] == hash(data[i]);
      v := if text == data[i] then FromLeaf(i, m) else Clash(m, DataAt(i));
    } else {
      NodeBelow(hash, HashAll(hash, data), levels, k, i);
      if 2 * i + 1 < |levels[k - 1]| {
        var place := PairAt(k - 1, i);
        if text != BuildText(data, levels, place) {
          v := Clash(m, place);
        } else if m == 0 {
          assert text == x by { TextStart(hash, x, proof); }
          assert proof[0..] == proof;
          v := FromPair(k - 1, i);
        } else {
          var c := ChildBelow(hash, levels, k, i, x, proof, m);
          v := Descend(hash, data, levels, k - 1, c, x, proof, m - 1);
        }
      } else {
        PathPromoted(levels, k, i);
        v := Descend(hash, data, levels, k - 1, 2 * i, x, proof, m);
      }
    }
  }

  lemma TextStart(hash: Hash, x: seq<Byte>, proof: seq<ProofStep>)
    ensures VerifyText(hash, x, proof, 0) == x
  {
  }

  lemma PathPromoted(levels: seq<seq<Digest>>, k: nat, i: nat)
    requires 0 < k < |levels| && |levels[k - 1]| <= 2 * i + 1
    ensures PathUp(levels, k - 1, 2 * i) == PathUp(levels, k, i)
  {
    hide PathUp;
    PathHere(levels, k - 1, 2 * i);
  }

  lemma PathHere(levels: seq<seq<Digest>>, k: nat, i: nat)
    requires k + 1 < |levels|
    ensures PathUp(levels, k, i) ==
            (if Sibling(i) < |levels[k]| then [(levels[k][Sibling(i)], i % 2 == 0)] else [])
            + PathUp(levels, k + 1, i / 2)
  {
  }

  lemma PathStep(levels: seq<seq<Digest>>, k: nat, i: nat, right: bool)
    requires 0 < k < |levels| && 2 * i + 1 < |levels[k - 1]|
    ensures
      var c: nat := if right then 2 * i else 2 * i + 1;
      PathUp(levels, k - 1, c) == [(levels[k - 1][Sibling(c)], right)] + PathUp(levels, k, i)
  {
    hide PathUp;
    PathHere(levels, k - 1, if right then 2 * i else 2 * i + 1);
  }

  /** What was hashed for a pair was the join of one of its nodes, arrived at one
      step before, with the other. */
  lemma ChildBelow(hash: Hash, levels: seq<seq<Digest>>, k: nat, i: nat, x: seq<Byte>, proof: seq<ProofStep>, m: nat)
      returns (c: nat)
    requires 0 < k < |levels| && 2 * i + 1 < |levels[k - 1]|
    requires 0 < m <= |proof| && proof[m..] == PathUp(levels, k, i)
    requires VerifyText(hash, x, proof, m) == Join(levels[k - 1][2 * i], levels[k - 1][2 * i + 1])
    ensures c < |levels[k - 1]| && proof[m - 1..] == PathUp(levels, k - 1, c)
    ensures Fold(hash, hash(x), proof[..m - 1]) == levels[k - 1][c]
  {
    hide Fold, PathUp, Combine;
    var step := proof[m - 1];
    CombineParts(Fold(hash, hash(x), proof[..m - 1]), step, levels[k - 1][2 * i], levels[k - 1][2 * i + 1]);
    PathStep(levels, k, i, step.1);
    c := if step.1 then 2 * i else 2 * i + 1;
    assert proof[m - 1..] == [step] + proof[m..];
  }

  lemma CombineParts(h: Digest, step: ProofStep, l: Digest, r: Digest)
    requires Combine(h, step) == Join(l, r)
    ensures if step.1 then h == l && step.0 == r else h == r && step.0 == l
  {
    var joined := Join(l, r);
    assert joined[..32] == l && joined[32..] == r;
    if step.1 {
      assert joined[..32] == h && joined[32..] == step.0;
    } else {
      assert joined[32..] == h && joined[..32] == step.0;
    }
  }

  lemma NodeBelow(hash: Hash, leaves: seq<Digest>, levels: seq<seq<Digest>>, k: nat, i: nat)
    requires Growing(hash, leaves, levels) && 0 < k < |levels| && i < |levels[k]|
    ensures 2 * i < |levels[k - 1]| && levels[k][i] == Parent(hash, levels[k - 1], i)
  {
    assert Above(hash, levels, k - 1);
  }

  /** Whatever verifies, with whatever proof, is explained. */
  lemma Soundness(hash: Hash, data: seq<seq<Byte>>, levels: seq<seq<Digest>>, root: Option<Digest>, x: seq<Byte>,
                  proof: seq<ProofStep>) returns (v: Evidence)
    requires Built(hash, HashAll(hash, data), levels, root) && Some(Fold(hash, hash(x), proof)) == root
    ensures |levels| > 0 && Explains(hash, data, levels, x, proof, v)
  {
    hide Fold, Explains, Above;
    assert HashAll(hash, data) != [];
    var m := |proof|;
    assert proof[..m] == proof && proof[m..] == [];
    v := Descend(hash, data, levels, |levels| - 1, 0, x, proof, m);
  }

  lemma StepSize(hash: Hash, x: seq<Byte>, proof: seq<ProofStep>, n: nat)
    requires 0 < n <= |proof|
    ensures |VerifyText(hash, x, proof, n)| == 64
  {
    hide Fold;
  }

  /** If neither what is verified nor any leaf is of 64 bytes, only a leaf's data
      with the proof generated for it verifies, or verifying and building hash
      different texts to one digest. */
  lemma OnlyLeavesVerify(hash: Hash, data: seq<seq<Byte>>, levels: seq<seq<Digest>>, root: Option<Digest>, x: seq<Byte>,
                         proof: seq<ProofStep>) returns (v: Evidence)
    requires Built(hash, HashAll(hash, data), levels, root) && Some(Fold(hash, hash(x), proof)) == root
    requires |x| != 64 && forall i :: 0 <= i < |data| ==> |data[i]| != 64
    ensures |levels| > 0 && Explains(hash, data, levels, x, proof, v)
    ensures v.FromLeaf? ==> v.i < |data| && x == data[v.i] && proof == ProofTo(levels, v.i, |levels| - 1)
    ensures v.FromLeaf? || v.Clash?
  {
    hide Fold, Growing, PathUp;
    v := Soundness(hash, data, levels, root, x, proof);
    if v.FromLeaf? {
      if v.n > 0 {
        StepSize(hash, x, proof, v.n);
      }
      TextStart(hash, x, proof);
      PathIsProof(levels, v.i, 0);
      assert proof[0..] == proof;
    }
  }

  lemma {:induction false} FoldConcat(hash: Hash, h: Digest, p: seq<ProofStep>, q: seq<ProofStep>)
    ensures Fold(hash, h, p + q) == Fold(hash, Fold(hash, h, p), q)
  {
    hide Combine;
    if q == [] {
      assert p + q == p;
    } else {
      FoldConcat(hash, h, p, q[..|q| - 1]);
      assert (p + q)[..|p + q| - 1] == p + q[..|q| - 1];
    }
  }

  /** The way up from any node folds to the root. */
  lemma {:induction false} PathVerifies(hash: Hash, leaves: seq<Digest>, levels: seq<seq<Digest>>,
                                        root: Option<Digest>, k: nat, i: nat)
    requires Built(hash, leaves, levels, root) && leaves != [] && k < |levels| && i < |levels[k]|
    ensures Some(Fold(hash, levels[k][i], PathUp(levels, k, i))) == root
    decreases |levels| - k
  {
    hide Fold, Combine, PairsUp;
    if k + 1 == |levels| {
      FoldNothing(hash, levels[k][i]);
    } else {
      assert Above(hash, levels, k);
      ParentFold(hash, levels[k], levels[k + 1], i);
      PathVerifies(hash, leaves, levels, root, k + 1, i / 2);
      var rest := PathUp(levels, k + 1, i / 2);
      if Sibling(i) < |levels[k]| {
        var step := (levels[k][Sibling(i)], i % 2 == 0);
        FoldOnce(hash, levels[k][i], step);
        FoldConcat(hash, levels[k][i], [step], rest);
      } else {
        assert [] + rest == rest;
      }
    }
  }

  lemma FoldOnce(hash: Hash, h: Digest, step: ProofStep)
    ensures Fold(hash, h, [step]) == hash(Combine(h, step))
  {
    hide Combine;
    assert [step][..0] == [];
  }

  /** The join of any two sibling nodes does verify. */
  lemma InnerVerifies(hash: Hash, leaves: seq<Digest>, levels: seq<seq<Digest>>, root: Option<Digest>, k: nat, i: nat)
    requires Built(hash, leaves, levels, root) && leaves != [] && k + 1 < |levels| && 2 * i + 1 < |levels[k]|
    ensures Some(Fold(hash, hash(Join(levels[k][2 * i], levels[k][2 * i + 1])), PathUp(levels, k + 1, i))) == root
  {
    hide Fold, PathUp, PairsUp;
    assert Above(hash, levels, k);
    PairsSize(hash, levels[k], levels[k + 1]);
    NodeBelow(hash, leaves, levels, k + 1, i);
    PathVerifies(hash, leaves, levels, root, k + 1, i);
  }

  /** What is explained otherwise than by a clash verifies with that very proof. */
  lemma Completeness(hash: Hash, data: seq<seq<Byte>>, levels: seq<seq<Digest>>, root: Option<Digest>, x: seq<Byte>,
                     proof: seq<ProofStep>, v: Evidence)
    requires Built(hash, HashAll(hash, data), levels, root) && |levels| > 0
    requires Explains(hash, data, levels, x, proof, v) && !v.Clash?
    ensures Some(Fold(hash, hash(x), proof)) == root
  {
    hide Fold, Above, VerifyText, PathUp;
    match v {
      case FromLeaf(i, n) =>
        FoldText(hash, x, proof, n);
        assert levels[0][i] == hash(data[i]);
        PathVerifies(hash, HashAll(hash, data), levels, root, 0, i);
        FoldConcat(hash, hash(x), proof[..n], proof[n..]);
        assert proof == proof[..n] + proof[n..];
      case FromPair(k, i) =>
        InnerVerifies(hash, HashAll(hash, data), levels, root, k, i);
    }
  }

  /** A leaf's data or a pair's join, with nothing but the way up from it, or what
      leads to hashing a leaf's data. */
  ghost predicate Genuine(hash: Hash, data: seq<seq<Byte>>, levels: seq<seq<Digest>>, x: seq<Byte>,
                          proof: seq<ProofStep>)
  {
    levels != [] && exists v: Evidence :: !v.Clash? && Explains(hash, data, levels, x, proof, v)
  }

  /** Verifying and building hash two different texts to one digest. */
  ghost predicate Clashes(hash: Hash, data: seq<seq<Byte>>, levels: seq<seq<Digest>>, x: seq<Byte>,
                          proof: seq<ProofStep>)
  {
    exists n: nat, p: Place :: n <= |proof| && InTree(data, levels, p) &&
                               Collision(hash, VerifyText(hash, x, proof, n), BuildText(data, levels, p))
  }

  /** Data verifies with a proof if they are genuine, and only if, unless verifying
      and building hash two different texts to one digest. */
  lemma VerifiesIff(hash: Hash, data: seq<seq<Byte>>, levels: seq<seq<Digest>>, root: Option<Digest>, x: seq<Byte>,
                    proof: seq<ProofStep>)
    requires Built(hash, HashAll(hash, data), levels, root)
    ensures Genuine(hash, data, levels, x, proof) ==> Some(Fold(hash, hash(x), proof)) == root
    ensures !Clashes(hash, data, levels, x, proof) ==>
              (Some(Fold(hash, hash(x), proof)) == root <==> Genuine(hash, data, levels, x, proof))
  {
    hide Fold, Growing, Explains, VerifyText;
    if Genuine(hash, data, levels, x, proof) {
      var v: Evidence :| !v.Clash? && Explains(hash, data, levels, x, proof, v);
      Completeness(hash, data, levels, root, x, proof, v);
    } else if Some(Fold(hash, hash(x), proof)) == root {
      var v := Soundness(hash, data, levels, root, x, proof);
      assert v.Clash?;
      ClashIs(hash, data, levels, x, proof, v.n, v.p);
    }
  }

  lemma ClashIs(hash: Hash, data: seq<seq<Byte>>, levels: seq<seq<Digest>>, x: seq<Byte>, proof: seq<ProofStep>,
                n: nat, p: Place)
    requires |levels| > 0 && Explains(hash, data, levels, x, proof, Clash(n, p))
    ensures Clashes(hash, data, levels, x, proof)
  {
    hide VerifyText, BuildText, Collision;
  }

  // --- the tree

  class MerkleTree {
    const hash: Hash
    var root: Option<Digest>
    var leaves: seq<Digest>
    var levels: seq<seq<Digest>>

    constructor (hash: Hash)
      ensures this.hash == hash && leaves == [] && Built(hash, leaves, levels, root)
    {
      this.hash := hash;
      root, leaves, levels := None, [], [];
    }

    constructor FromData(hash: Hash, data: seq<seq<Byte>>)
      ensures this.hash == hash && leaves == HashAll(hash, data) && Built(hash, leaves, levels, root)
      ensures |leaves| == |data| && forall i :: 0 <= i < |data| ==> leaves[i] == hash(data[i])
      ensures root == if data == [] then None else Some(TreeHash(hash, leaves))
    {
      this.hash := hash;
      root, leaves, levels := None, [], [];
      new;
      var i := 0;
      while i < |data|
        invariant 0 <= i <= |data| && leaves == HashAll(hash, data[..i])
      {
        AddLeaf(data[i]);
        i := i + 1;
      }
      assert data[..i] == data;
      Build();
    }

    method AddLeaf(data: seq<Byte>)
      modifies this`leaves
      ensures leaves == old(leaves) + [hash(data)]
    {
      leaves := leaves + [hash(data)];
    }

    method Build()
      modifies this`root, this`levels
      ensures Built(hash, leaves, levels, root)
      ensures root == if leaves == [] then None else Some(TreeHash(hash, leaves))
    {
      hide Above, PairsUp, TreeHash;
      if leaves == [] {
        root := None;
        levels := [];
        return;
      }
      levels := [];
      var current := leaves;
      levels := levels + [current];
      while |current| > 1
        invariant Growing(hash, leaves, levels) && current == levels[|levels| - 1]
        decreases |current|
      {
        var next := PairUp(hash, current);
        Grow(hash, leaves, levels, next);
        PairsSize(hash, current, next);
        levels := levels + [next];
        current := next;
      }
      root := Some(current[0]);
      RootIsTreeHash(hash, leaves, levels, root);
    }

    predicate Verify(data: seq<Byte>, proof: seq<ProofStep>)
      reads this
    {
      Some(Fold(hash, hash(data), proof)) == root
    }

    method VerifyProof(data: seq<Byte>, proof: seq<ProofStep>) returns (ok: bool)
      ensures ok == Verify(data, proof)
      ensures ok <==> root == Some(Climb(hash, hash(data), proof))
      ensures forall s: Digest :: proof == [(s, true)] ==> (ok <==> root == Some(hash(hash(data) + s)))
      ensures forall s: Digest :: proof == [(s, false)] ==> (ok <==> root == Some(hash(s + hash(data))))
    {
      var h := hash(data);
      var i := 0;
      while i < |proof|
        invariant 0 <= i <= |proof| && h == Fold(hash, hash(data), proof[..i])
      {
        assert proof[..i + 1][..i] == proof[..i];
        h := hash(Combine(h, proof[i]));
        i := i + 1;
      }
      assert proof[..i] == proof;
      FoldIsClimb(hash, hash(data), proof);
      ok := Some(h) == root;
    }

    /** The proof of a leaf of a finished tree leads from any data with that
        leaf's hash to the root, and is no longer than the tree is high. */
    method GenerateProof(leafIndex: nat) returns (r: Option<seq<ProofStep>>)
      ensures r.None? <==> leafIndex >= |leaves| || levels == []
      ensures r.Some? ==> |r.value| < |levels| && r.value == ProofTo(levels, leafIndex, |levels| - 1)
      ensures r.Some? && Built(hash, leaves, levels, root) ==>
                && (forall data :: hash(data) == leaves[leafIndex] ==> Verify(data, r.value))
                && (|r.value| > 0 ==> Pow2(|r.value| - 1) < |leaves|)
    {
      hide Growing, Fold, Combine, Pow2;
      if leafIndex >= |leaves| || levels == [] {
        return None;
      }
      var proof: seq<ProofStep> := [];
      var idx := leafIndex;
      var k := 0;
      while k < |levels| - 1
        invariant 0 <= k <= |levels| - 1 && idx == Ancestor(leafIndex, k)
        invariant proof == ProofTo(levels, leafIndex, k) && |proof| <= k
      {
        var siblingIdx := Sibling(idx);
        if siblingIdx < |levels[k]| {
          proof := proof + [(levels[k][siblingIdx], idx % 2 == 0)];
        }
        idx := idx / 2;
        k := k + 1;
      }
      if Built(hash, leaves, levels, root) {
        FoldToAncestor(hash, leaves, levels, leafIndex, k);
        Height(hash, leaves, levels, root);
        if |proof| > 0 {
          Pow2Monotone(|proof| - 1, k - 1);
        }
      }
      return Some(proof);
    }
  }

  lemma {:induction false} Pow2Monotone(a: nat, b: nat)
    requires a <= b
    ensures Pow2(a) <= Pow2(b)
  {
    if a < b {
      Pow2Monotone(a, b - 1);
    }
  }
}
