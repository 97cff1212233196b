/** The FM-index, crates/algorithms/src/searching.rs:307-412: a sorted suffix
    array, its Burrows-Wheeler transform and backward search over it. */
module FmIndex {
  import opened Sorting
  import opened Bytes

  // --- lexicographic order

  predicate LexLeq(a: seq<Byte>, b: seq<Byte>) {
    a == [] || (b != [] && (a[0] < b[0] || (a[0] == b[0] && LexLeq(a[1..], b[1..]))))
  }

  lemma {:induction false} LexTotal(a: seq<Byte>, b: seq<Byte>)
    ensures LexLeq(a, b) || LexLeq(b, a)
  {
    if a != [] && b != [] && a[0] == b[0] {
      LexTotal(a[1..], b[1..]);
    }
  }

  lemma {:induction false} LexTransitive(a: seq<Byte>, b: seq<Byte>, c: seq<Byte>)
    requires LexLeq(a, b) && LexLeq(b, c)
    ensures LexLeq(a, c)
  {
    if a != [] && a[0] == b[0] == c[0] {
      LexTransitive(a[1..], b[1..], c[1..]);
    }
  }

  lemma {:induction false} LexAntisymmetric(a: seq<Byte>, b: seq<Byte>)
    requires LexLeq(a, b) && LexLeq(b, a)
    ensures a == b
  {
    if a != [] {
      LexAntisymmetric(a[1..], b[1..]);
      assert a == [a[0]] + a[1..] && b == [b[0]] + b[1..];
    }
  }

  /** Alike up to some place, where `a` ends or has the smaller byte. */
  ghost predicate Precedes(a: seq<Byte>, b: seq<Byte>) {
    exists k: nat :: PartAt(a, b, k)
  }

  ghost predicate PartAt(a: seq<Byte>, b: seq<Byte>, k: nat) {
    k <= |a| && k <= |b| && a[..k] == b[..k] && (k == |a| || (k < |b| && a[k] < b[k]))
  }

  lemma {:induction false} LexPrecedes(a: seq<Byte>, b: seq<Byte>)
    requires LexLeq(a, b)
    ensures Precedes(a, b)
  {
    if a == [] || (b != [] && a[0] < b[0]) {
      assert PartAt(a, b, 0);
    } else {
      LexPrecedes(a[1..], b[1..]);
      var k: nat :| PartAt(a[1..], b[1..], k);
      assert a[..k + 1] == [a[0]] + a[1..][..k] && b[..k + 1] == [b[0]] + b[1..][..k];
      assert PartAt(a, b, k + 1);
    }
  }

  // --- the index

  type Suffix = (nat, seq<Byte>)

  predicate SuffixLeq(a: Suffix, b: Suffix) {
    LexLeq(a.1, b.1)
  }

  lemma SuffixLeqPreorder()
    ensures TotalPreorder(SuffixLeq)
  {
    forall a, b ensures SuffixLeq(a, b) || SuffixLeq(b, a) {
      LexTotal(a.1, b.1);
    }
    forall a, b, c | SuffixLeq(a, b) && SuffixLeq(b, c) ensures SuffixLeq(a, c) {
      LexTransitive(a.1, b.1, c.1);
    }
  }

  datatype FmIndex = FmIndex(
    bwt: seq<Byte>,
    suffixArray: seq<nat>,
    firstOccurrence: map<Byte, nat>,
    count: seq<seq<nat>>,
    textLen: nat
  )

  function Extended(text: seq<Byte>): seq<Byte> {
    text + [0]
  }

  /** The occurrences of `c` among the first `i` entries. */
  function Occ(last: seq<nat>, c: nat, i: nat): nat
    requires i <= |last|
  {
    if i == 0 then 0 else Occ(last, c, i - 1) + if last[i - 1] == c then 1 else 0
  }

  /** The rows list every position once, in the order of the suffixes; the last
      position holds the sentinel. */
  ghost predicate SortedRows(ext: seq<Byte>, sa: seq<nat>) {
    && |ext| > 0 && ext[|ext| - 1] == 0
    && |sa| == |ext|
    && (forall i :: 0 <= i < |sa| ==> sa[i] < |ext|)
    && (forall i, j :: 0 <= i < j < |sa| ==> sa[i] != sa[j])
    && (forall p: nat :: p < |ext| ==> p in sa)
    && (forall i, j :: 0 <= i < j < |sa| ==> LexLeq(ext[sa[i]..], ext[sa[j]..]))
  }

  function BwtAt(ext: seq<Byte>, p: nat): Byte
    requires p < |ext|
  {
    if p == 0 then 0 else ext[p - 1]
  }

  ghost predicate BwtOf(ext: seq<Byte>, sa: seq<nat>, bwt: seq<Byte>) {
    |bwt| == |sa| && forall i :: 0 <= i < |sa| && sa[i] < |ext| ==> bwt[i] == BwtAt(ext, sa[i])
  }

  /** `first` maps each byte of the text to its first row. */
  ghost predicate FirstRows(ext: seq<Byte>, sa: seq<nat>, first: map<Byte, nat>, rows: nat) {
    && (forall i :: 0 <= i < rows && i < |sa| && sa[i] < |ext| ==> ext[sa[i]] in first && first[ext[sa[i]]] <= i)
    && (forall c :: c in first ==> first[c] < rows && first[c] < |sa| && sa[first[c]] < |ext| && ext[sa[first[c]]] == c)
  }

  ghost predicate Counts(bwt: seq<Byte>, count: seq<seq<nat>>, rows: nat) {
    && rows < |count| && rows <= |bwt|
    && forall i :: 0 <= i <= rows ==> |count[i]| == 256 && forall c: Byte :: count[i][c] == Occ(bwt, c, i)
  }

  ghost predicate Valid(text: seq<Byte>, fm: FmIndex) {
    var ext := Extended(text);
    && fm.textLen == |ext|
    && SortedRows(ext, fm.suffixArray)
    && BwtOf(ext, fm.suffixArray, fm.bwt)
    && FirstRows(ext, fm.suffixArray, fm.firstOccurrence, |ext|)
    && |fm.count| == |ext| + 1
    && Counts(fm.bwt, fm.count, |ext|)
  }

  // --- the last-to-first mapping

  lemma RowExists(ext: seq<Byte>, sa: seq<nat>, p: nat) returns (i: nat)
    requires SortedRows(ext, sa) && p < |ext|
    ensures i < |sa| && sa[i] == p
  {
    assert p in sa;
    i :| 0 <= i < |sa| && sa[i] == p;
  }

  lemma RowUnique(ext: seq<Byte>, sa: seq<nat>, i: nat, j: nat)
    requires SortedRows(ext, sa) && i < |sa| && j < |sa| && sa[i] == sa[j]
    ensures i == j
  {
    hide LexLeq;
  }

  /** Rows between two rows that start with `c` start with `c`. */
  lemma Sandwiched(ext: seq<Byte>, sa: seq<nat>, i: nat, y: nat, j: nat)
    requires SortedRows(ext, sa) && i <= y <= j < |sa| && sa[i] < |ext| && sa[j] < |ext| && ext[sa[i]] == ext[sa[j]]
    ensures sa[y] < |ext| && ext[sa[y]] == ext[sa[i]]
  {
    if i < y < j {
      assert LexLeq(ext[sa[i]..], ext[sa[y]..]) && LexLeq(ext[sa[y]..], ext[sa[j]..]);
    }
  }

  /** Prefixing the same byte keeps the order of two rows. */
  lemma StepKeepsOrder(ext: seq<Byte>, sa: seq<nat>, x: nat, y: nat, i: nat, j: nat)
    requires SortedRows(ext, sa) && x < y < |sa| && i < |sa| && j < |sa|
    requires sa[x] + 1 == sa[i] && sa[y] + 1 == sa[j] && ext[sa[x]] == ext[sa[y]]
    ensures i < j
  {
    var a, b := ext[sa[x]..], ext[sa[y]..];
    assert LexLeq(a, b);
    assert a[1..] == ext[sa[i]..] && b[1..] == ext[sa[j]..];
    assert sa[x] != sa[y] && |a| != |b| && i != j;
    if j < i {
      assert LexLeq(b[1..], a[1..]);
      LexAntisymmetric(a[1..], b[1..]);
    }
  }

  lemma SentinelRow(ext: seq<Byte>, sa: seq<nat>)
    requires SortedRows(ext, sa)
    ensures sa[0] == |ext| - 1 && forall x :: 0 < x < |sa| ==> sa[x] + 1 < |ext|
  {
    var i := RowExists(ext, sa, |ext| - 1);
    assert ext[sa[i]..] == [0];
    assert LexLeq([0], [0]);
    assert LexLeq(ext[sa[0]..], ext[sa[i]..]);
    NotPastNul(ext[sa[0]..]);
  }

  lemma NotPastNul(s: seq<Byte>)
    requires s != [] && LexLeq(s, [0])
    ensures |s| == 1
  {
    assert LexLeq(s[1..], [0][1..]);
  }

  ghost function RowOf(ext: seq<Byte>, sa: seq<nat>, q: nat): (x: nat)
    requires SortedRows(ext, sa) && q < |ext|
    ensures x < |sa| && sa[x] == q
  {
    assert q in sa;
    var x: nat :| x < |sa| && sa[x] == q;
    x
  }

  /** `last` holds the byte before each row, and for the row of the whole text,
      which no byte precedes, a number that is no byte. */
  ghost predicate Preceding(ext: seq<Byte>, sa: seq<nat>, last: seq<nat>) {
    |last| == |sa| && forall i :: 0 <= i < |sa| && sa[i] < |ext| ==>
      last[i] == if sa[i] == 0 then 256 else ext[sa[i] - 1]
  }

  /** Row `x` is one position before row `j` and starts with `c`. */
  ghost predicate Maps(sa: seq<nat>, last: seq<nat>, c: nat, x: nat, j: nat) {
    x < |sa| && j < |sa| == |last| && last[j] == c && sa[x] + 1 == sa[j]
  }

  ghost predicate Mapped(sa: seq<nat>, last: seq<nat>, c: nat, i: nat, x: nat) {
    exists j: nat :: j < i && Maps(sa, last, c, x, j)
  }

  /** The first `i` rows whose preceding byte is `c` map to the rows from
      `first` on, without a gap. */
  ghost predicate LfUpTo(sa: seq<nat>, last: seq<nat>, c: nat, first: nat, i: nat) {
    && i <= |last|
    && (forall x: nat :: first <= x < first + Occ(last, c, i) ==> Mapped(sa, last, c, i, x))
    && (forall x: nat, j: nat :: j < i && Maps(sa, last, c, x, j) ==> first <= x < first + Occ(last, c, i))
  }

  /** The rows that start with `c`, but for the sentinel's, start at `first`. */
  ghost predicate StartsAt(ext: seq<Byte>, sa: seq<nat>, c: nat, first: nat) {
    && (exists a: nat {:trigger sa[a]} :: a <= first && a < |sa| && sa[a] < |ext| && ext[sa[a]] == c)
    && forall y: nat {:trigger sa[y]} :: y < |sa| && sa[y] < |ext| && ext[sa[y]] == c ==>
      (first <= y <==> sa[y] + 1 < |ext|)
  }

  /** The row before row `i` is the next free one of its byte. */
  lemma NextRow(ext: seq<Byte>, sa: seq<nat>, last: seq<nat>, c: nat, first: nat, i: nat, x: nat)
    requires SortedRows(ext, sa) && Preceding(ext, sa, last) && c < 256 && StartsAt(ext, sa, c, first)
    requires LfUpTo(sa, last, c, first, i) && i < |sa| && Maps(sa, last, c, x, i)
    ensures x == first + Occ(last, c, i)
  {
    hide LexLeq, Occ;
    var y := first + Occ(last, c, i);
    assert sa[i] < |ext| && sa[x] < |ext| && ext[sa[x]] == c;
    assert first <= x;
    forall j: nat | j < i ensures !Maps(sa, last, c, x, j) {
      assert sa[j] != sa[i];
    }
    assert !Mapped(sa, last, c, i, x);
    assert y <= x;
    if y < x {
      var a: nat :| a <= first && a < |sa| && sa[a] < |ext| && ext[sa[a]] == c;
      Sandwiched(ext, sa, a, y, x);
      NoGap(ext, sa, last, c, y, x, i);
    }
  }

  /** A row `y` of the byte before row `x` maps from a row before that of `x`. */
  lemma NoGap(ext: seq<Byte>, sa: seq<nat>, last: seq<nat>, c: nat, y: nat, x: nat, i: nat)
    requires SortedRows(ext, sa) && Preceding(ext, sa, last) && c < 256 && y < x < |sa| && i < |sa|
    requires Maps(sa, last, c, x, i) && ext[sa[y]] == c && ext[sa[x]] == c && sa[y] + 1 < |ext|
    ensures exists j: nat :: j < i && Maps(sa, last, c, y, j)
  {
    hide LexLeq;
    var j := RowExists(ext, sa, sa[y] + 1);
    assert Maps(sa, last, c, y, j);
    StepKeepsOrder(ext, sa, y, x, j, i);
  }

  lemma {:induction false} LfMapping(ext: seq<Byte>, sa: seq<nat>, last: seq<nat>, c: nat, first: nat, i: nat)
    requires SortedRows(ext, sa) && Preceding(ext, sa, last) && c < 256 && StartsAt(ext, sa, c, first)
    requires i <= |sa|
    ensures LfUpTo(sa, last, c, first, i)
  {
    hide LexLeq, LfUpTo, StartsAt;
    if i == 0 {
      LfNone(sa, last, c, first);
    } else {
      LfMapping(ext, sa, last, c, first, i - 1);
      if last[i - 1] == c {
        assert sa[i - 1] != 0;
        var x := RowExists(ext, sa, sa[i - 1] - 1);
        assert Maps(sa, last, c, x, i - 1);
        NextRow(ext, sa, last, c, first, i - 1, x);
        hide Preceding;
        LfStep(ext, sa, last, c, first, i, x);
      } else {
        LfSkip(sa, last, c, first, i);
      }
    }
  }

  lemma LfNone(sa: seq<nat>, last: seq<nat>, c: nat, first: nat)
    ensures LfUpTo(sa, last, c, first, 0)
  {
  }

  lemma LfSkip(sa: seq<nat>, last: seq<nat>, c: nat, first: nat, i: nat)
    requires i > 0 && LfUpTo(sa, last, c, first, i - 1) && i <= |last| && last[i - 1] != c
    ensures LfUpTo(sa, last, c, first, i)
  {
    assert Occ(last, c, i) == Occ(last, c, i - 1);
    hide Occ;
    forall y: nat | first <= y < first + Occ(last, c, i) ensures Mapped(sa, last, c, i, y) {
      assert Mapped(sa, last, c, i - 1, y);
    }
    forall y: nat, j: nat | j < i && Maps(sa, last, c, y, j) ensures first <= y < first + Occ(last, c, i) {
      assert j < i - 1;
    }
  }

  lemma LfStep(ext: seq<Byte>, sa: seq<nat>, last: seq<nat>, c: nat, first: nat, i: nat, x: nat)
    requires SortedRows(ext, sa)
    requires i > 0 && LfUpTo(sa, last, c, first, i - 1) && i <= |last| && last[i - 1] == c
    requires Maps(sa, last, c, x, i - 1) && x == first + Occ(last, c, i - 1)
    ensures LfUpTo(sa, last, c, first, i)
  {
    hide LexLeq;
    assert Occ(last, c, i) == Occ(last, c, i - 1) + 1;
    hide Occ;
    forall y: nat | first <= y < first + Occ(last, c, i) ensures Mapped(sa, last, c, i, y) {
      if y < x {
        assert Mapped(sa, last, c, i - 1, y);
        var j: nat :| j < i - 1 && Maps(sa, last, c, y, j);
      } else {
        assert Maps(sa, last, c, y, i - 1);
      }
    }
    forall y: nat, j: nat | j < i && Maps(sa, last, c, y, j) ensures first <= y < first + Occ(last, c, i) {
      if j == i - 1 {
        RowUnique(ext, sa, x, y);
      }
    }
  }

  /** The row of the position before row `j`, in closed form. */
  lemma LfRow(ext: seq<Byte>, sa: seq<nat>, last: seq<nat>, c: nat, first: nat, j: nat)
    requires SortedRows(ext, sa) && Preceding(ext, sa, last) && c < 256 && StartsAt(ext, sa, c, first)
    requires j < |sa| && last[j] == c
    ensures first + Occ(last, c, j) < |sa| && sa[first + Occ(last, c, j)] + 1 == sa[j]
    ensures ext[sa[first + Occ(last, c, j)]] == c
  {
    hide LexLeq, LfUpTo, StartsAt, Occ;
    assert sa[j] != 0 && ext[sa[j] - 1] == c;
    var x := RowExists(ext, sa, sa[j] - 1);
    assert Maps(sa, last, c, x, j);
    LfMapping(ext, sa, last, c, first, j);
    NextRow(ext, sa, last, c, first, j, x);
  }

  // --- what backward search follows

  /** A NUL after which the text sorts no later than the whole text; the
      sentinel, after which nothing follows, is one. */
  predicate Early(ext: seq<Byte>, q: nat)
    requires q < |ext|
  {
    ext[q] == 0 && LexLeq(ext[q + 1..], ext)
  }

  /** The position that backward search takes to follow `q`: the next one, but
      an early NUL is followed as the next early NUL in the order of the
      suffixes should be, and the last of them by the start of the text. */
  ghost function After(ext: seq<Byte>, sa: seq<nat>, q: nat): (r: nat)
    requires SortedRows(ext, sa) && q < |ext|
    ensures r < |ext|
  {
    if !Early(ext, q) then q + 1
    else
      var x := RowOf(ext, sa, q);
      SentinelRow(ext, sa);
      if x + 1 < |sa| && Early(ext, sa[x + 1]) then sa[x + 1] + 1 else 0
  }

  /** The transform with its one row that no byte precedes marked. */
  ghost function Marked(sa: seq<nat>, bwt: seq<Byte>): (last: seq<nat>)
    ensures |last| == |bwt|
  {
    var marked: nat := 256;
    seq(|bwt|, i requires 0 <= i < |bwt| => if i < |sa| && sa[i] == 0 then marked else bwt[i])
  }

  lemma MarkedPreceding(ext: seq<Byte>, sa: seq<nat>, bwt: seq<Byte>)
    requires SortedRows(ext, sa) && BwtOf(ext, sa, bwt)
    ensures Preceding(ext, sa, Marked(sa, bwt))
  {
    hide LexLeq;
  }

  /** Changing one NUL to a mark takes it out of the counts past it. */
  lemma {:induction false} OccChanged(last: seq<nat>, marked: seq<nat>, w: nat, c: nat, i: nat)
    requires |last| == |marked| && w < |last| && last[w] == 0 && marked == last[w := 256] && c < 256 && i <= |last|
    ensures Occ(last, c, i) == Occ(marked, c, i) + if c == 0 && w < i then 1 else 0
  {
    if i > 0 {
      OccChanged(last, marked, w, c, i - 1);
    }
  }

  lemma OccMarked(ext: seq<Byte>, sa: seq<nat>, bwt: seq<Byte>, w: nat, c: nat, i: nat)
    requires SortedRows(ext, sa) && BwtOf(ext, sa, bwt) && w < |sa| && sa[w] == 0 && c < 256 && i <= |bwt|
    ensures Occ(bwt, c, i) == Occ(Marked(sa, bwt), c, i) + if c == 0 && w < i then 1 else 0
  {
    hide SortedRows, BwtOf, Marked, Occ;
    var last: seq<nat> := bwt;
    EarlyCount(ext, sa, bwt, w);
    forall k: nat | k < |bwt| ensures Marked(sa, bwt)[k] == last[w := 256][k] {
      MarkedAt(ext, sa, bwt, w, k);
    }
    MarkedAt(ext, sa, bwt, w, w);
    assert Marked(sa, bwt) == last[w := 256];
    OccChanged(last, Marked(sa, bwt), w, c, i);
  }

  lemma MarkedAt(ext: seq<Byte>, sa: seq<nat>, bwt: seq<Byte>, w: nat, i: nat)
    requires SortedRows(ext, sa) && BwtOf(ext, sa, bwt) && w < |sa| && sa[w] == 0 && i < |bwt|
    ensures Marked(sa, bwt)[i] == if i == w then 256 else bwt[i]
    ensures bwt[w] == 0
  {
    hide LexLeq;
    if i != w && i < |sa| && sa[i] == 0 {
      RowUnique(ext, sa, i, w);
    }
  }

  lemma OccNext(last: seq<nat>, c: nat, i: nat)
    requires i < |last|
    ensures Occ(last, c, i + 1) == Occ(last, c, i) + if last[i] == c then 1 else 0
  {
  }

  lemma {:induction false} OccMonotone(last: seq<nat>, c: nat, i: nat, j: nat)
    requires i <= j <= |last|
    ensures Occ(last, c, i) <= Occ(last, c, j)
  {
    if i < j {
      OccMonotone(last, c, i, j - 1);
    }
  }

  lemma {:induction false} OccAtMost(last: seq<nat>, c: nat, i: nat)
    requires i <= |last|
    ensures Occ(last, c, i) <= i
  {
    if i > 0 {
      OccAtMost(last, c, i - 1);
    }
  }

  /** Every count between two others is met at some entry. */
  lemma {:induction false} OccHit(last: seq<nat>, c: nat, l: nat, r: nat, k: nat) returns (j: nat)
    requires l <= r <= |last| && Occ(last, c, l) <= k < Occ(last, c, r)
    ensures l <= j < r && last[j] == c && Occ(last, c, j) == k
  {
    if last[r - 1] == c && Occ(last, c, r - 1) == k {
      j := r - 1;
    } else {
      j := OccHit(last, c, l, r - 1, k);
    }
  }

  lemma NulStarts(ext: seq<Byte>, sa: seq<nat>)
    requires SortedRows(ext, sa)
    ensures StartsAt(ext, sa, 0, 1)
  {
    SentinelRow(ext, sa);
    hide LexLeq;
    assert ext[sa[0]] == 0;
  }

  /** The early NULs stand in the first rows, as many as there are NULs in the
      transform before the row `w` of the whole text, and the sentinel. */
  lemma EarlyRows(ext: seq<Byte>, sa: seq<nat>, bwt: seq<Byte>, w: nat, y: nat)
    requires SortedRows(ext, sa) && BwtOf(ext, sa, bwt) && w < |sa| && sa[w] == 0 && y < |sa|
    ensures Early(ext, sa[y]) <==> y <= Occ(bwt, 0, w)
  {
    hide LexLeq, Occ, Preceding, BwtOf, Marked, StartsAt;
    SentinelRow(ext, sa);
    EarlyCount(ext, sa, bwt, w);
    if y == 0 {
      SentinelEarly(ext);
    } else if ext[sa[y]] == 0 {
      NulRow(ext, sa, bwt, w, y);
      EarlyBefore(ext, sa, w, y, RowOf(ext, sa, sa[y] + 1));
    } else if y <= Occ(bwt, 0, w) {
      EarlyMapped(ext, sa, bwt, w, y);
    }
  }

  lemma SentinelEarly(ext: seq<Byte>)
    requires |ext| > 0 && ext[|ext| - 1] == 0
    ensures Early(ext, |ext| - 1)
  {
  }

  lemma EarlyMapped(ext: seq<Byte>, sa: seq<nat>, bwt: seq<Byte>, w: nat, y: nat)
    requires SortedRows(ext, sa) && BwtOf(ext, sa, bwt) && w < |sa| && sa[w] == 0 && 0 < y <= Occ(bwt, 0, w) && y < |sa|
    ensures ext[sa[y]] == 0
  {
    hide LexLeq, Occ, Marked, StartsAt;
    var last := Marked(sa, bwt);
    MarkedPreceding(ext, sa, bwt);
    NulStarts(ext, sa);
    OccMarked(ext, sa, bwt, w, 0, w);
    hide BwtOf;
    LfMapping(ext, sa, last, 0, 1, w);
    assert Mapped(sa, last, 0, w, y);
  }

  /** A NUL row other than the sentinel's is early if what follows it stands
      before the whole text. */
  lemma EarlyBefore(ext: seq<Byte>, sa: seq<nat>, w: nat, y: nat, j: nat)
    requires SortedRows(ext, sa) && w < |sa| && sa[w] == 0 && y < |sa| && j < |sa|
    requires ext[sa[y]] == 0 && sa[y] + 1 == sa[j]
    ensures Early(ext, sa[y]) <==> j < w
  {
    assert ext[sa[w]..] == ext && j != w && |ext[sa[j]..]| < |ext|;
    if j < w {
      assert LexLeq(ext[sa[j]..], ext[sa[w]..]);
    } else {
      assert LexLeq(ext[sa[w]..], ext[sa[j]..]);
      if LexLeq(ext[sa[j]..], ext) {
        LexAntisymmetric(ext[sa[j]..], ext);
      }
    }
  }

  /** Row `y` of a NUL in the text counts the NULs of the transform before the
      row that follows it, and lies past the early ones unless it is one. */
  lemma NulRow(ext: seq<Byte>, sa: seq<nat>, bwt: seq<Byte>, w: nat, y: nat)
    requires SortedRows(ext, sa) && BwtOf(ext, sa, bwt) && w < |sa| && sa[w] == 0
    requires 0 < y < |sa| && sa[y] + 1 < |ext| && ext[sa[y]] == 0
    ensures
      var j := RowOf(ext, sa, sa[y] + 1);
      && j != w && bwt[j] == 0 && j < |bwt|
      && y == Occ(bwt, 0, j) + (if j < w then 1 else 0) && (j < w <==> y <= Occ(bwt, 0, w))
  {
    hide SortedRows, BwtOf, Occ, Marked, StartsAt, Preceding;
    var last := Marked(sa, bwt);
    RowsWithin(ext, sa);
    var j := RowOf(ext, sa, sa[y] + 1);
    PrecedingByte(ext, sa, bwt, j);
    MarkedAt(ext, sa, bwt, w, j);
    MarkedPreceding(ext, sa, bwt);
    EarlyCount(ext, sa, bwt, w);
    NulStarts(ext, sa);
    LfRow(ext, sa, last, 0, 1, j);
    RowUnique(ext, sa, y, 1 + Occ(last, 0, j));
    OccMarked(ext, sa, bwt, w, 0, j);
    NulSide(bwt, w, j);
  }

  lemma NulSide(bwt: seq<Byte>, w: nat, j: nat)
    requires w < |bwt| && j < |bwt| && j != w && bwt[w] == 0 && bwt[j] == 0
    ensures j < w <==> Occ(bwt, 0, j) + (if j < w then 1 else 0) <= Occ(bwt, 0, w)
  {
    hide Occ;
    if j < w {
      Between(bwt, j, j, w);
    } else {
      Between(bwt, w, w, j);
    }
  }

  /** What follows a NUL, by its row. */
  lemma AfterNul(ext: seq<Byte>, sa: seq<nat>, bwt: seq<Byte>, w: nat, x: nat)
    requires SortedRows(ext, sa) && BwtOf(ext, sa, bwt) && w < |sa| && sa[w] == 0
    requires x < |sa| && ext[sa[x]] == 0
    ensures x < Occ(bwt, 0, w) ==> x + 1 < |sa| && After(ext, sa, sa[x]) == sa[x + 1] + 1
    ensures x == Occ(bwt, 0, w) ==> After(ext, sa, sa[x]) == 0
    ensures x > Occ(bwt, 0, w) ==> After(ext, sa, sa[x]) == sa[x] + 1
  {
    hide LexLeq, Occ, Early, BwtOf;
    EarlyCount(ext, sa, bwt, w);
    EarlyRows(ext, sa, bwt, w, x);
    RowUnique(ext, sa, x, RowOf(ext, sa, sa[x]));
    if x + 1 < |sa| {
      EarlyRows(ext, sa, bwt, w, x + 1);
    }
  }

  lemma EarlyCount(ext: seq<Byte>, sa: seq<nat>, bwt: seq<Byte>, w: nat)
    requires SortedRows(ext, sa) && BwtOf(ext, sa, bwt) && w < |sa|
    ensures Occ(bwt, 0, w) <= w < |bwt| == |sa|
  {
    hide LexLeq;
    OccAtMost(bwt, 0, w);
  }

  lemma AfterOther(ext: seq<Byte>, sa: seq<nat>, q: nat)
    requires SortedRows(ext, sa) && q < |ext| && ext[q] != 0
    ensures After(ext, sa, q) == q + 1 && q + 1 < |ext|
  {
  }

  /** The entry point of a byte in the rows, and 0 for a byte not in the text. */
  function FirstRow(first: map<Byte, nat>, c: Byte): nat {
    if c in first then first[c] else 0
  }

  lemma FirstRowIs(ext: seq<Byte>, sa: seq<nat>, first: map<Byte, nat>, c: Byte)
    requires SortedRows(ext, sa) && FirstRows(ext, sa, first, |ext|) && c in ext
    ensures c in first && first[c] < |sa| && ext[sa[first[c]]] == c
    ensures forall y: nat :: y < first[c] ==> ext[sa[y]] != c
  {
    hide LexLeq;
    var q :| 0 <= q < |ext| && ext[q] == c;
    var x := RowExists(ext, sa, q);
  }

  lemma ByteStarts(ext: seq<Byte>, sa: seq<nat>, first: map<Byte, nat>, c: Byte)
    requires SortedRows(ext, sa) && FirstRows(ext, sa, first, |ext|) && c in ext && c != 0
    ensures StartsAt(ext, sa, c, FirstRow(first, c))
  {
    FirstRowIs(ext, sa, first, c);
    hide LexLeq, FirstRows;
  }

  /** The step back from row `j` leads to the row that is followed by `j`. */
  lemma StepBack(text: seq<Byte>, fm: FmIndex, j: nat)
    requires Valid(text, fm) && j < |fm.bwt|
    ensures
      var ext, sa, c := Extended(text), fm.suffixArray, fm.bwt[j];
      var x := FirstRow(fm.firstOccurrence, c) + Occ(fm.bwt, c, j);
      x < |sa| && ext[sa[x]] == c && After(ext, sa, sa[x]) == sa[j]
  {
    hide SortedRows, FirstRows, Counts, Occ, BwtOf, After;
    var ext, sa, bwt, c := Extended(text), fm.suffixArray, fm.bwt, fm.bwt[j];
    var w := WholeRow(ext, sa, bwt);
    if c == 0 {
      FirstIsNul(text, sa, fm.firstOccurrence);
      StepBackNul(ext, sa, bwt, w, j);
    } else {
      StepBackByte(text, fm, w, j);
    }
  }

  lemma WholeRow(ext: seq<Byte>, sa: seq<nat>, bwt: seq<Byte>) returns (w: nat)
    requires SortedRows(ext, sa) && BwtOf(ext, sa, bwt)
    ensures w < |sa| == |bwt| && sa[w] == 0 && bwt[w] == 0
  {
    hide LexLeq;
    w := RowExists(ext, sa, 0);
    assert bwt[w] == BwtAt(ext, sa[w]);
  }

  lemma StepBackByte(text: seq<Byte>, fm: FmIndex, w: nat, j: nat)
    requires Valid(text, fm) && j < |fm.bwt| && fm.bwt[j] != 0 && w < |fm.suffixArray| && fm.suffixArray[w] == 0
    ensures
      var ext, sa, c := Extended(text), fm.suffixArray, fm.bwt[j];
      var x := FirstRow(fm.firstOccurrence, c) + Occ(fm.bwt, c, j);
      x < |sa| && ext[sa[x]] == c && After(ext, sa, sa[x]) == sa[j]
  {
    hide SortedRows, FirstRows, Counts, Occ, After, Marked, Preceding, StartsAt;
    var ext, sa, bwt, c := Extended(text), fm.suffixArray, fm.bwt, fm.bwt[j];
    ByteOccurs(ext, sa, bwt, j);
    MarkedAt(ext, sa, bwt, w, j);
    MarkedPreceding(ext, sa, bwt);
    ByteStarts(ext, sa, fm.firstOccurrence, c);
    OccMarked(ext, sa, bwt, w, c, j);
    hide BwtOf;
    LfRow(ext, sa, Marked(sa, bwt), c, FirstRow(fm.firstOccurrence, c), j);
    RowsWithin(ext, sa);
    AfterOther(ext, sa, sa[FirstRow(fm.firstOccurrence, c) + Occ(bwt, c, j)]);
  }

  lemma RowsWithin(ext: seq<Byte>, sa: seq<nat>)
    requires SortedRows(ext, sa)
    ensures |sa| == |ext| && forall x :: 0 <= x < |sa| ==> sa[x] < |ext|
  {
    hide LexLeq;
  }

  lemma ByteOccurs(ext: seq<Byte>, sa: seq<nat>, bwt: seq<Byte>, j: nat)
    requires SortedRows(ext, sa) && BwtOf(ext, sa, bwt) && j < |bwt| && bwt[j] != 0
    ensures bwt[j] in ext
  {
    hide LexLeq;
    assert bwt[j] == BwtAt(ext, sa[j]);
  }

  lemma StepBackNul(ext: seq<Byte>, sa: seq<nat>, bwt: seq<Byte>, w: nat, j: nat)
    requires SortedRows(ext, sa) && BwtOf(ext, sa, bwt) && w < |sa| == |bwt| && sa[w] == 0 && j < |bwt| && bwt[j] == 0
    ensures
      var x := Occ(bwt, 0, j);
      x < |sa| && ext[sa[x]] == 0 && After(ext, sa, sa[x]) == sa[j]
  {
    hide LexLeq, Occ, After;
    var x := Occ(bwt, 0, j);
    RowsWithin(ext, sa);
    if j == w {
      EarlyCount(ext, sa, bwt, w);
      EarlyRows(ext, sa, bwt, w, x);
      AfterNul(ext, sa, bwt, w, x);
    } else {
      assert sa[j] != 0 by { if sa[j] == 0 { RowUnique(ext, sa, j, w); } }
      assert bwt[j] == BwtAt(ext, sa[j]);
      var y := RowOf(ext, sa, sa[j] - 1);
      RowUnique(ext, sa, j, RowOf(ext, sa, sa[y] + 1));
      NulRowPositive(ext, sa, y);
      NulRow(ext, sa, bwt, w, y);
      hide BwtOf, SortedRows;
      EarlyRows(ext, sa, bwt, w, x);
      if j < w {
        AfterNul(ext, sa, bwt, w, x);
      } else {
        AfterNul(ext, sa, bwt, w, y);
      }
    }
  }

  lemma NulRowPositive(ext: seq<Byte>, sa: seq<nat>, y: nat)
    requires SortedRows(ext, sa) && y < |sa| && sa[y] + 1 < |ext|
    ensures y > 0
  {
    SentinelRow(ext, sa);
  }

  /** Every row is led to by the step back from the row that follows it. */
  lemma StepInverse(text: seq<Byte>, fm: FmIndex, x: nat)
    requires Valid(text, fm) && x < |fm.suffixArray|
    ensures
      var ext, sa := Extended(text), fm.suffixArray;
      var j, c := RowOf(ext, sa, After(ext, sa, sa[x])), ext[sa[x]];
      j < |fm.bwt| && fm.bwt[j] == c && x == FirstRow(fm.firstOccurrence, c) + Occ(fm.bwt, c, j)
  {
    hide SortedRows, FirstRows, Counts, Occ, BwtOf, After;
    var ext, sa, bwt := Extended(text), fm.suffixArray, fm.bwt;
    var w := WholeRow(ext, sa, bwt);
    RowsWithin(ext, sa);
    if ext[sa[x]] == 0 {
      FirstIsNul(text, sa, fm.firstOccurrence);
      StepInverseNul(ext, sa, bwt, w, x);
    } else {
      AfterOther(ext, sa, sa[x]);
      var j := RowOf(ext, sa, sa[x] + 1);
      assert bwt[j] == ext[sa[x]] by { PrecedingByte(ext, sa, bwt, j); }
      StepBackByte(text, fm, w, j);
      FollowedOnce(ext, sa, x, FirstRow(fm.firstOccurrence, bwt[j]) + Occ(bwt, bwt[j], j));
    }
  }

  lemma PrecedingByte(ext: seq<Byte>, sa: seq<nat>, bwt: seq<Byte>, j: nat)
    requires SortedRows(ext, sa) && BwtOf(ext, sa, bwt) && j < |sa| && sa[j] != 0
    ensures |bwt| == |sa| && sa[j] - 1 < |ext| && bwt[j] == ext[sa[j] - 1]
  {
    hide LexLeq;
    assert bwt[j] == BwtAt(ext, sa[j]);
  }

  lemma FollowedOnce(ext: seq<Byte>, sa: seq<nat>, x: nat, y: nat)
    requires SortedRows(ext, sa) && x < |sa| && y < |sa| && ext[sa[x]] != 0 && ext[sa[y]] != 0
    requires After(ext, sa, sa[x]) == After(ext, sa, sa[y])
    ensures x == y
  {
    hide LexLeq;
    RowUnique(ext, sa, x, y);
  }

  lemma StepInverseNul(ext: seq<Byte>, sa: seq<nat>, bwt: seq<Byte>, w: nat, x: nat)
    requires SortedRows(ext, sa) && BwtOf(ext, sa, bwt) && w < |sa| == |bwt| && sa[w] == 0 && bwt[w] == 0
    requires x < |sa| && ext[sa[x]] == 0
    ensures
      var j := RowOf(ext, sa, After(ext, sa, sa[x]));
      bwt[j] == 0 && x == Occ(bwt, 0, j)
  {
    hide LexLeq, Occ, After, BwtOf;
    var k := Occ(bwt, 0, w);
    var j := RowOf(ext, sa, After(ext, sa, sa[x]));
    AfterNul(ext, sa, bwt, w, x);
    SentinelRow(ext, sa);
    EarlyCount(ext, sa, bwt, w);
    if x < k {
      EarlyRows(ext, sa, bwt, w, x + 1);
      NulRow(ext, sa, bwt, w, x + 1);
    } else if x == k {
      RowUnique(ext, sa, j, w);
    } else {
      NulRow(ext, sa, bwt, w, x);
    }
  }

  // --- backward search

  /** `p` is read from position `q` on, following `After`. */
  ghost predicate Follows(ext: seq<Byte>, sa: seq<nat>, q: nat, p: seq<Byte>)
    requires SortedRows(ext, sa) && q < |ext|
    decreases |p|
  {
    p == [] || (ext[q] == p[0] && Follows(ext, sa, After(ext, sa, q), p[1..]))
  }

  /** The rows from `l` to `r` are exactly those from which `p` is read. */
  ghost predicate Interval(ext: seq<Byte>, sa: seq<nat>, l: nat, r: nat, p: seq<Byte>)
    requires SortedRows(ext, sa)
  {
    && l <= r <= |sa|
    && forall x: nat {:trigger sa[x]} :: x < |sa| && sa[x] < |ext| ==> (l <= x < r <==> Follows(ext, sa, sa[x], p))
  }

  lemma FollowsStep(ext: seq<Byte>, sa: seq<nat>, q: nat, c: Byte, p: seq<Byte>)
    requires SortedRows(ext, sa) && q < |ext|
    ensures Follows(ext, sa, q, [c] + p) <==> ext[q] == c && Follows(ext, sa, After(ext, sa, q), p)
  {
    hide SortedRows, After;
    assert ([c] + p)[1..] == p;
  }

  /** One step of backward search is exact, for every byte of every text. */
  lemma BackwardStep(text: seq<Byte>, fm: FmIndex, c: Byte, l: nat, r: nat, p: seq<Byte>)
    requires Valid(text, fm) && Interval(Extended(text), fm.suffixArray, l, r, p)
    ensures r <= |fm.bwt|
    ensures Interval(Extended(text), fm.suffixArray, FirstRow(fm.firstOccurrence, c) + Occ(fm.bwt, c, l),
                     FirstRow(fm.firstOccurrence, c) + Occ(fm.bwt, c, r), [c] + p)
  {
    hide SortedRows, FirstRows, Counts, Occ, BwtOf, After, Follows;
    var ext, sa, bwt, first := Extended(text), fm.suffixArray, fm.bwt, FirstRow(fm.firstOccurrence, c);
    ValidSizes(text, fm);
    StepBounds(text, fm, c, l, r);
    RowsWithin(ext, sa);
    forall x: nat {:trigger sa[x]} | x < |sa|
      ensures first + Occ(bwt, c, l) <= x < first + Occ(bwt, c, r) <==> Follows(ext, sa, sa[x], [c] + p)
    {
      StepRow(text, fm, c, l, r, p, x);
    }
  }

  lemma StepRow(text: seq<Byte>, fm: FmIndex, c: Byte, l: nat, r: nat, p: seq<Byte>, x: nat)
    requires Valid(text, fm) && Interval(Extended(text), fm.suffixArray, l, r, p)
    requires x < |fm.suffixArray| == |fm.bwt| == |Extended(text)| && fm.suffixArray[x] < |Extended(text)|
    ensures FirstRow(fm.firstOccurrence, c) + Occ(fm.bwt, c, l) <= x <
            FirstRow(fm.firstOccurrence, c) + Occ(fm.bwt, c, r)
            <==> Follows(Extended(text), fm.suffixArray, fm.suffixArray[x], [c] + p)
  {
    hide SortedRows, FirstRows, Counts, Occ, BwtOf, After, Follows, Extended;
    var ext, sa, bwt, first := Extended(text), fm.suffixArray, fm.bwt, FirstRow(fm.firstOccurrence, c);
    FollowsStep(ext, sa, sa[x], c, p);
    if first + Occ(bwt, c, l) <= x < first + Occ(bwt, c, r) {
      var j := OccHit(bwt, c, l, r, x - first);
      StepBack(text, fm, j);
    }
    if ext[sa[x]] == c {
      StepInverse(text, fm, x);
      var j := RowOf(ext, sa, After(ext, sa, sa[x]));
      OccNext(bwt, c, j);
      if l <= j < r {
        OccMonotone(bwt, c, l, j);
        OccMonotone(bwt, c, j + 1, r);
      }
    }
  }

  /** A step keeps the bounds ordered and within the rows. */
  lemma StepBounds(text: seq<Byte>, fm: FmIndex, c: Byte, l: nat, r: nat)
    requires Valid(text, fm) && l <= r <= |fm.bwt|
    ensures Occ(fm.bwt, c, l) <= Occ(fm.bwt, c, r)
    ensures FirstRow(fm.firstOccurrence, c) + Occ(fm.bwt, c, r) <= |fm.bwt|
  {
    hide SortedRows, FirstRows, Counts, BwtOf, After, Occ;
    OccMonotone(fm.bwt, c, l, r);
    ValidSizes(text, fm);
    if Occ(fm.bwt, c, r) > 0 {
      OccStart(fm.bwt, c);
      var j := OccHit(fm.bwt, c, 0, r, Occ(fm.bwt, c, r) - 1);
      StepBack(text, fm, j);
    } else {
      FirstWithin(text, fm, c);
    }
  }

  lemma OccStart(last: seq<nat>, c: nat)
    ensures Occ(last, c, 0) == 0
  {
  }

  lemma FirstWithin(text: seq<Byte>, fm: FmIndex, c: Byte)
    requires Valid(text, fm)
    ensures FirstRow(fm.firstOccurrence, c) <= |fm.bwt|
  {
    hide SortedRows, Counts;
  }

  lemma FirstIsNul(text: seq<Byte>, sa: seq<nat>, first: map<Byte, nat>)
    requires SortedRows(Extended(text), sa) && FirstRows(Extended(text), sa, first, |Extended(text)|)
    ensures FirstRow(first, 0) == 0
  {
    var ext := Extended(text);
    var i := RowExists(ext, sa, |text|);
    assert i == 0 || LexLeq(ext[sa[0]..], ext[sa[i]..]);
    assert ext[sa[0]] == 0;
  }

  lemma WholeInterval(ext: seq<Byte>, sa: seq<nat>)
    requires SortedRows(ext, sa)
    ensures Interval(ext, sa, 0, |ext|, [])
  {
    hide LexLeq;
  }

  // --- the algorithms

  method BuildFirst(ext: seq<Byte>, sa: seq<nat>) returns (first: map<Byte, nat>)
    requires SortedRows(ext, sa)
    ensures FirstRows(ext, sa, first, |ext|)
  {
    hide LexLeq;
    first := map[];
    var i := 0;
    while i < |sa|
      invariant 0 <= i <= |sa|
      invariant FirstRows(ext, sa, first, i)
    {
      if ext[sa[i]] !in first {
        first := first[ext[sa[i]] := i];
      }
      i := i + 1;
    }
  }

  method BuildCount(bwt: seq<Byte>) returns (count: seq<seq<nat>>)
    ensures |count| == |bwt| + 1 && Counts(bwt, count, |bwt|)
  {
    count := seq(|bwt| + 1, _ => seq(256, _ => 0));
    var i := 0;
    while i < |bwt|
      invariant 0 <= i <= |bwt| && |count| == |bwt| + 1
      invariant Counts(bwt, count, i)
      invariant forall k :: i < k <= |bwt| ==> |count[k]| == 256
    {
      var c := bwt[i];
      count := count[i + 1 := count[i]];
      count := count[i + 1 := count[i + 1][c := count[i + 1][c] + 1]];
      i := i + 1;
    }
  }

  lemma SortedSuffixes(ext: seq<Byte>, all: seq<Suffix>, sorted: seq<Suffix>, sa: seq<nat>)
    requires |ext| > 0 && ext[|ext| - 1] == 0
    requires |all| == |ext| && forall i :: 0 <= i < |all| ==> all[i] == (i, ext[i..])
    requires multiset(sorted) == multiset(all) && SortedBy(SuffixLeq, sorted)
    requires |sa| == |all| == |sorted| && forall i :: 0 <= i < |sa| ==> sa[i] == sorted[i].0
    ensures SortedRows(ext, sa)
    ensures forall i :: 0 <= i < |sa| ==> sa[i] < |ext| && sorted[i].1 == ext[sa[i]..]
  {
    hide LexLeq, SuffixLeq, SortedBy;
    SuffixesDistinct(ext, all);
    MultisetDistinct(sorted, all);
    SortedEntries(ext, all, sorted, sa);
    SortedOrder(ext, sorted, sa);
  }

  lemma SuffixesDistinct(ext: seq<Byte>, all: seq<Suffix>)
    requires |all| == |ext| && forall i :: 0 <= i < |all| ==> all[i] == (i, ext[i..])
    ensures Distinct(all)
  {
  }

  lemma SortSuffixes(all: seq<Suffix>)
    ensures
      var sorted := SortBy(SuffixLeq, all);
      multiset(sorted) == multiset(all) && SortedBy(SuffixLeq, sorted) && |sorted| == |all|
  {
    hide LexLeq, SuffixLeq, SortBy, SortedBy, TotalPreorder;
    SuffixLeqPreorder();
    SortBySorted(SuffixLeq, all);
    SortByMultiset(SuffixLeq, all);
    assert |multiset(SortBy(SuffixLeq, all))| == |multiset(all)|;
  }

  lemma SortedOrder(ext: seq<Byte>, sorted: seq<Suffix>, sa: seq<nat>)
    requires |sa| == |sorted| && Distinct(sorted) && SortedBy(SuffixLeq, sorted)
    requires forall i :: 0 <= i < |sa| ==> sa[i] < |ext| && sorted[i] == (sa[i], ext[sa[i]..])
    ensures forall i, j :: 0 <= i < j < |sa| ==> sa[i] != sa[j] && LexLeq(ext[sa[i]..], ext[sa[j]..])
  {
    hide LexLeq, SuffixLeq;
    forall i, j | 0 <= i < j < |sa| ensures sa[i] != sa[j] && LexLeq(ext[sa[i]..], ext[sa[j]..]) {
      assert sorted[i] != sorted[j] && SuffixLeq(sorted[i], sorted[j]);
      SuffixLeqIs(sorted[i], sorted[j]);
    }
  }

  lemma SuffixLeqIs(a: Suffix, b: Suffix)
    requires SuffixLeq(a, b)
    ensures LexLeq(a.1, b.1)
  {
    hide LexLeq;
  }

  lemma SortedEntries(ext: seq<Byte>, all: seq<Suffix>, sorted: seq<Suffix>, sa: seq<nat>)
    requires |all| == |ext| && forall i :: 0 <= i < |all| ==> all[i] == (i, ext[i..])
    requires |sa| == |sorted| == |all| && forall i :: 0 <= i < |sa| ==> sa[i] == sorted[i].0
    requires Elems(sorted) == Elems(all)
    ensures forall i :: 0 <= i < |sa| ==> sa[i] < |ext| && sorted[i] == (sa[i], ext[sa[i]..])
    ensures forall p: nat :: p < |ext| ==> p in sa
  {
    forall i | 0 <= i < |sorted| ensures sa[i] < |ext| && sorted[i] == (sa[i], ext[sa[i]..]) {
      assert sorted[i] in Elems(all);
    }
    forall p: nat | p < |ext| ensures p in sa {
      assert all[p] in Elems(sorted);
      var i :| 0 <= i < |sorted| && sorted[i] == all[p];
      assert sa[i] == p;
    }
  }

  method New(text: seq<Byte>) returns (fm: FmIndex)
    ensures Valid(text, fm)
    ensures |fm.suffixArray| == |text| + 1
    ensures forall i, j :: 0 <= i < j < |fm.suffixArray| ==>
              && fm.suffixArray[i] <= |text| && fm.suffixArray[j] <= |text|
              && Precedes((text + [0])[fm.suffixArray[i]..], (text + [0])[fm.suffixArray[j]..])
  {
    hide SortedRows, FirstRows, Counts, SortBy, SortedBy, SuffixLeq, Precedes;
    var ext := Extended(text);
    var n := |ext|;
    var suffixes: seq<Suffix> := seq(n, (i: nat) requires i < n => (i, ext[i..]));
    var sorted: seq<Suffix> := SortBy(SuffixLeq, suffixes);
    SortSuffixes(suffixes);
    var suffixArray: seq<nat> := seq(n, (i: nat) requires i < n => sorted[i].0);
    SortedSuffixes(ext, suffixes, sorted, suffixArray);
    var bwt := seq(n, i requires 0 <= i < n => if suffixArray[i] == 0 then 0 else ext[suffixArray[i] - 1]);
    var first := BuildFirst(ext, suffixArray);
    var count := BuildCount(bwt);
    fm := FmIndex(bwt, suffixArray, first, count, n);
    assert BwtOf(ext, suffixArray, bwt);
    RowsPrecede(ext, suffixArray);
  }

  lemma RowsPrecede(ext: seq<Byte>, sa: seq<nat>)
    requires SortedRows(ext, sa)
    ensures |sa| == |ext|
    ensures forall i, j :: 0 <= i < j < |sa| ==>
              sa[i] < |ext| && sa[j] < |ext| && Precedes(ext[sa[i]..], ext[sa[j]..])
  {
    hide LexLeq, Precedes;
    forall i, j | 0 <= i < j < |sa| ensures Precedes(ext[sa[i]..], ext[sa[j]..]) {
      LexPrecedes(ext[sa[i]..], ext[sa[j]..]);
    }
  }

  lemma CountIs(fm: FmIndex, rows: nat, i: nat, c: Byte)
    requires Counts(fm.bwt, fm.count, rows) && i <= rows
    ensures i < |fm.count| && c < |fm.count[i]| && i <= |fm.bwt| && fm.count[i][c] == Occ(fm.bwt, c, i)
  {
  }

  lemma ValidSizes(text: seq<Byte>, fm: FmIndex)
    requires Valid(text, fm)
    ensures |fm.suffixArray| == |fm.bwt| == fm.textLen == |Extended(text)|
  {
  }

  lemma RowsDistinct(ext: seq<Byte>, sa: seq<nat>, l: nat, r: nat)
    requires SortedRows(ext, sa) && l <= r <= |sa|
    ensures Distinct(sa[l..r])
  {
    hide LexLeq;
  }

  lemma {:induction false} FollowsTail(ext: seq<Byte>, sa: seq<nat>, q: nat, p: seq<Byte>, i: nat)
    requires SortedRows(ext, sa) && q < |ext| && i <= |p| && Follows(ext, sa, q, p)
    ensures exists q': nat :: q' < |ext| && Follows(ext, sa, q', p[i..])
    decreases i
  {
    hide SortedRows, After;
    if i == 0 {
      assert p[0..] == p;
    } else {
      FollowsTail(ext, sa, After(ext, sa, q), p[1..], i - 1);
      assert p[1..][i - 1..] == p[i..];
    }
  }

  /** If the tail of the pattern is read nowhere, neither is the pattern. */
  lemma EmptyStays(ext: seq<Byte>, sa: seq<nat>, l: nat, r: nat, pattern: seq<Byte>, i: nat)
    requires SortedRows(ext, sa) && i <= |pattern| && Interval(ext, sa, l, r, pattern[i..]) && l >= r
    ensures Interval(ext, sa, 0, 0, pattern)
  {
    hide LexLeq, Follows;
    forall x: nat {:trigger sa[x]} | x < |sa| && sa[x] < |ext| ensures !Follows(ext, sa, sa[x], pattern) {
      if Follows(ext, sa, sa[x], pattern) {
        FollowsTail(ext, sa, sa[x], pattern, i);
        var q: nat :| q < |ext| && Follows(ext, sa, q, pattern[i..]);
        var y := RowExists(ext, sa, q);
      }
    }
  }

  /** What the index answers: the positions from which the pattern is read. */
  ghost function Found(ext: seq<Byte>, sa: seq<nat>, pattern: seq<Byte>): set<nat>
    requires SortedRows(ext, sa)
  {
    set q: nat | q < |ext| && Follows(ext, sa, q, pattern)
  }

  lemma IntervalMatches(ext: seq<Byte>, sa: seq<nat>, l: nat, r: nat, p: seq<Byte>)
    requires SortedRows(ext, sa) && Interval(ext, sa, l, r, p)
    ensures Distinct(sa[l..r]) && Elems(sa[l..r]) == Found(ext, sa, p)
    ensures |Found(ext, sa, p)| == r - l
  {
    hide LexLeq, Follows;
    forall q ensures q in Elems(sa[l..r]) <==> q in Found(ext, sa, p) {
      if q in sa[l..r] {
        var k :| 0 <= k < r - l && sa[l..r][k] == q;
        assert sa[l + k] == q;
      }
      if q in Found(ext, sa, p) {
        var x := RowExists(ext, sa, q);
        assert sa[l..r][x - l] == q;
      }
    }
    DistinctSize(sa[l..r]);
  }

  lemma SliceIs(pattern: seq<Byte>, i: nat)
    requires i < |pattern|
    ensures [pattern[i]] + pattern[i + 1..] == pattern[i..]
  {
  }

  method CountOccurrences(fm: FmIndex, pattern: seq<Byte>, ghost text: seq<Byte>) returns (n: nat)
    requires Valid(text, fm)
    ensures pattern == [] ==> n == 0
    ensures pattern != [] ==> n == |Found(Extended(text), fm.suffixArray, pattern)|
  {
    hide SortedRows, FirstRows, Counts, BwtOf, Interval, Occ, Follows, Found, Extended;
    if pattern == [] {
      return 0;
    }
    ghost var ext := Extended(text);
    ValidSizes(text, fm);
    var l: nat, r: nat := 0, fm.textLen;
    var i := |pattern|;
    WholeInterval(ext, fm.suffixArray);
    assert pattern[i..] == [];
    while true
      invariant 0 <= i <= |pattern|
      invariant l <= r <= fm.textLen
      invariant Interval(ext, fm.suffixArray, l, r, pattern[i..])
      decreases i
    {
      if i == 0 {
        assert pattern[i..] == pattern;
        IntervalMatches(ext, fm.suffixArray, l, r, pattern);
        return r - l;
      }
      i := i - 1;
      var c := pattern[i];
      StepBounds(text, fm, c, l, r);
      BackwardStep(text, fm, c, l, r, pattern[i + 1..]);
      SliceIs(pattern, i);
      CountIs(fm, |ext|, l, c);
      CountIs(fm, |ext|, r, c);
      l := FirstRow(fm.firstOccurrence, c) + fm.count[l][c];
      r := FirstRow(fm.firstOccurrence, c) + fm.count[r][c];
      if l >= r {
        EmptyStays(ext, fm.suffixArray, l, r, pattern, i);
        IntervalMatches(ext, fm.suffixArray, 0, 0, pattern);
        return 0;
      }
    }
  }

  method Search(fm: FmIndex, pattern: seq<Byte>, ghost text: seq<Byte>) returns (positions: seq<nat>)
    requires Valid(text, fm)
    ensures pattern == [] ==> positions == []
    ensures Distinct(positions)
    ensures pattern != [] ==> Elems(positions) == Found(Extended(text), fm.suffixArray, pattern)
  {
    hide SortedRows, FirstRows, Counts, BwtOf, Interval, Occ, Follows, Found, Extended;
    var count := CountOccurrences(fm, pattern, text);
    ElemsNonempty<nat>([]);
    if count == 0 {
      return [];
    }
    ghost var ext := Extended(text);
    ValidSizes(text, fm);
    var l: nat, r: nat := 0, fm.textLen;
    var i := |pattern|;
    WholeInterval(ext, fm.suffixArray);
    assert pattern[i..] == [];
    while i != 0
      invariant 0 <= i <= |pattern|
      invariant l <= r <= fm.textLen
      invariant Interval(ext, fm.suffixArray, l, r, pattern[i..])
    {
      i := i - 1;
      var c := pattern[i];
      StepBounds(text, fm, c, l, r);
      BackwardStep(text, fm, c, l, r, pattern[i + 1..]);
      SliceIs(pattern, i);
      CountIs(fm, |ext|, l, c);
      CountIs(fm, |ext|, r, c);
      l := FirstRow(fm.firstOccurrence, c) + fm.count[l][c];
      r := FirstRow(fm.firstOccurrence, c) + fm.count[r][c];
    }
    assert pattern[i..] == pattern;
    IntervalMatches(ext, fm.suffixArray, l, r, pattern);
    RowsDistinct(ext, fm.suffixArray, l, r);
    return fm.suffixArray[l..r];
  }

  // --- naive search

  /** The positions at which the pattern occurs in the text. */
  function Matches(text: seq<Byte>, pattern: seq<Byte>): set<nat> {
    set q: nat | q <= |text| && OccursAt(text, pattern, q)
  }

  predicate OccursAt(text: seq<Byte>, pattern: seq<Byte>, q: nat) {
    q + |pattern| <= |text| && text[q..q + |pattern|] == pattern
  }

  /** Without NUL in the pattern, what is followed is the text. */
  lemma {:induction false} FollowsPlain(text: seq<Byte>, sa: seq<nat>, q: nat, p: seq<Byte>)
    requires SortedRows(Extended(text), sa) && q <= |text| && 0 !in p
    ensures Follows(Extended(text), sa, q, p) <==> OccursAt(text, p, q)
    decreases |p|
  {
    hide SortedRows, After;
    var ext := Extended(text);
    if p != [] && q < |text| && text[q] != 0 {
      AfterOther(ext, sa, q);
      FollowsPlain(text, sa, q + 1, p[1..]);
      OccursStep(text, q, p);
    }
  }

  lemma OccursStep(text: seq<Byte>, q: nat, p: seq<Byte>)
    requires p != [] && q < |text|
    ensures OccursAt(text, p, q) <==> text[q] == p[0] && OccursAt(text, p[1..], q + 1)
  {
    assert p == [p[0]] + p[1..];
    if q + |p| <= |text| {
      assert text[q..q + |p|] == [text[q]] + text[q + 1..q + 1 + |p[1..]|];
    }
  }

  /** For a pattern without NUL the index finds the plain occurrences. */
  lemma PlainMatches(text: seq<Byte>, sa: seq<nat>, pattern: seq<Byte>)
    requires SortedRows(Extended(text), sa) && 0 !in pattern
    ensures Found(Extended(text), sa, pattern) == Matches(text, pattern)
  {
    hide SortedRows, Follows, OccursAt;
    forall q: nat | q <= |text| ensures Follows(Extended(text), sa, q, pattern) <==> OccursAt(text, pattern, q) {
      FollowsPlain(text, sa, q, pattern);
    }
  }

  // --- NUL in patterns

  function Next(n: nat, p: nat): (r: nat)
    requires p < n
    ensures r < n
  {
    if p + 1 == n then 0 else p + 1
  }

  /** `p` is read at position `q` of the extended text, wrapping at its end. */
  predicate ReadsAt(ext: seq<Byte>, q: nat, p: seq<Byte>)
    requires q < |ext|
    decreases |p|
  {
    p == [] || (ext[q] == p[0] && ReadsAt(ext, Next(|ext|, q), p[1..]))
  }

  lemma ReadsStep(ext: seq<Byte>, q: nat, c: Byte, p: seq<Byte>)
    requires q < |ext|
    ensures ReadsAt(ext, q, [c] + p) <==> ext[q] == c && ReadsAt(ext, Next(|ext|, q), p)
  {
    assert ([c] + p)[1..] == p;
  }

  /** The rows from `l` to `r` are exactly those at which `p` is read, wrapping
      around. */
  ghost predicate CircularInterval(ext: seq<Byte>, sa: seq<nat>, l: nat, r: nat, p: seq<Byte>) {
    && l <= r <= |sa|
    && forall x: nat {:trigger sa[x]} :: x < |sa| && sa[x] < |ext| ==> (l <= x < r <==> ReadsAt(ext, sa[x], p))
  }

  /** The row that precedes NUL row `x` around the text is between the bounds. */
  lemma NulRowReads(ext: seq<Byte>, sa: seq<nat>, l: nat, r: nat, p: seq<Byte>, x: nat)
    requires SortedRows(ext, sa) && CircularInterval(ext, sa, l, r, p) && x < |sa| && ext[sa[x]] == 0
    ensures ReadsAt(ext, sa[x], [0] + p) <==> l <= RowOf(ext, sa, Next(|ext|, sa[x])) < r
  {
    RowsWithin(ext, sa);
    hide SortedRows, ReadsAt;
    ReadsStep(ext, sa[x], 0, p);
  }

  /** Where the step counts in the closed form of a NUL row. */
  lemma NulRowCount(ext: seq<Byte>, sa: seq<nat>, bwt: seq<Byte>, w: nat, x: nat)
    requires SortedRows(ext, sa) && BwtOf(ext, sa, bwt) && w < |sa| == |bwt| && sa[w] == 0 && bwt[w] == 0
    requires x < |sa| && ext[sa[x]] == 0
    ensures
      var j := RowOf(ext, sa, Next(|ext|, sa[x]));
      && bwt[j] == 0 && (x == 0 <==> j == w)
      && (x > 0 ==> x == Occ(bwt, 0, j) + if j < w then 1 else 0)
  {
    hide LexLeq, Occ, BwtOf;
    SentinelRow(ext, sa);
    if x == 0 {
      RowUnique(ext, sa, w, RowOf(ext, sa, 0));
    } else {
      NulRow(ext, sa, bwt, w, x);
    }
  }

  /** Every NUL row is closed over by some row of the transform. */
  lemma NulRowAt(ext: seq<Byte>, sa: seq<nat>, bwt: seq<Byte>, w: nat, j: nat)
    requires SortedRows(ext, sa) && BwtOf(ext, sa, bwt) && w < |sa| == |bwt| && sa[w] == 0 && bwt[w] == 0
    requires j < |sa| && j != w && bwt[j] == 0
    ensures
      var x := Occ(bwt, 0, j) + if j < w then 1 else 0;
      0 < x < |sa| && ext[sa[x]] == 0 && RowOf(ext, sa, Next(|ext|, sa[x])) == j
  {
    hide LexLeq, Occ;
    assert sa[j] != 0 by { if sa[j] == 0 { RowUnique(ext, sa, j, w); } }
    PrecedingByte(ext, sa, bwt, j);
    var y := RowOf(ext, sa, sa[j] - 1);
    RowUnique(ext, sa, j, RowOf(ext, sa, sa[y] + 1));
    NulRowPositive(ext, sa, y);
    NulRow(ext, sa, bwt, w, y);
  }

  /** The condition under which a NUL step from the exact rows of a pattern
      tail, read around the text, is exact: the row `w` of the whole text lies
      before the rows, or among them with no NUL of the transform above them,
      or the step leaves nothing. */
  predicate NulStepExact(bwt: seq<Byte>, w: nat, l: nat, r: nat)
    requires l <= r <= |bwt|
  {
    w < l || (Occ(bwt, 0, l) == 0 && w < r) || Occ(bwt, 0, l) == Occ(bwt, 0, r)
  }

  lemma NulStepSound(ext: seq<Byte>, sa: seq<nat>, bwt: seq<Byte>, w: nat, l: nat, r: nat, p: seq<Byte>, x: nat)
    requires SortedRows(ext, sa) && BwtOf(ext, sa, bwt) && w < |sa| == |bwt| && sa[w] == 0 && bwt[w] == 0
    requires l <= r <= |bwt| && CircularInterval(ext, sa, l, r, p) && NulStepExact(bwt, w, l, r) && x < |sa|
    requires ReadsAt(ext, sa[x], [0] + p)
    ensures Occ(bwt, 0, l) <= x < Occ(bwt, 0, r)
  {
    hide Occ, BwtOf, CircularInterval, ReadsAt, SortedRows;
    RowsWithin(ext, sa);
    ReadsStep(ext, sa[x], 0, p);
    NulRowReads(ext, sa, l, r, p, x);
    NulRowCount(ext, sa, bwt, w, x);
    var j := RowOf(ext, sa, Next(|ext|, sa[x]));
    Between(bwt, l, j, r);
    if l <= w < r {
      Between(bwt, l, w, r);
      if j < w {
        Between(bwt, l, j, w);
      }
    }
  }

  lemma Between(bwt: seq<Byte>, l: nat, j: nat, r: nat)
    requires l <= j < r <= |bwt| && bwt[j] == 0
    ensures Occ(bwt, 0, l) <= Occ(bwt, 0, j) < Occ(bwt, 0, j) + 1 <= Occ(bwt, 0, r)
  {
    hide Occ;
    OccMonotone(bwt, 0, l, j);
    OccNext(bwt, 0, j);
    OccMonotone(bwt, 0, j + 1, r);
  }

  lemma NulStepComplete(ext: seq<Byte>, sa: seq<nat>, bwt: seq<Byte>, w: nat, l: nat, r: nat, p: seq<Byte>, x: nat)
    requires SortedRows(ext, sa) && BwtOf(ext, sa, bwt) && w < |sa| == |bwt| && sa[w] == 0 && bwt[w] == 0
    requires l <= r <= |bwt| && CircularInterval(ext, sa, l, r, p) && NulStepExact(bwt, w, l, r) && x < |sa|
    requires Occ(bwt, 0, l) <= x < Occ(bwt, 0, r)
    ensures ReadsAt(ext, sa[x], [0] + p)
  {
    hide Occ, BwtOf, CircularInterval, ReadsAt, SortedRows;
    RowsWithin(ext, sa);
    var j := OccHit(bwt, 0, l, r, x);
    if l <= w < r {
      NulStepAmong(ext, sa, bwt, w, l, r, x);
    } else {
      NulRowAt(ext, sa, bwt, w, j);
    }
    NulRowReads(ext, sa, l, r, p, x);
  }

  /** With the whole text among the rows and no NUL above them, each of the
      first NUL rows is closed over from among the rows. */
  lemma NulStepAmong(ext: seq<Byte>, sa: seq<nat>, bwt: seq<Byte>, w: nat, l: nat, r: nat, x: nat)
    requires SortedRows(ext, sa) && BwtOf(ext, sa, bwt) && w < |sa| == |bwt| && sa[w] == 0 && bwt[w] == 0
    requires l <= w < r <= |bwt| && Occ(bwt, 0, l) == 0 && x < Occ(bwt, 0, r)
    ensures x < |sa| && ext[sa[x]] == 0 && l <= RowOf(ext, sa, Next(|ext|, sa[x])) < r
  {
    hide Occ, BwtOf, SortedRows;
    RowsWithin(ext, sa);
    if x == 0 {
      NulFirst(ext, sa);
      RowUnique(ext, sa, w, RowOf(ext, sa, 0));
    } else if x <= Occ(bwt, 0, w) {
      var j := OccHit(bwt, 0, l, w, x - 1);
      NulRowAt(ext, sa, bwt, w, j);
    } else {
      var j := OccHit(bwt, 0, l, r, x);
      PastWhole(bwt, w, j);
      NulRowAt(ext, sa, bwt, w, j);
    }
  }

  lemma PastWhole(bwt: seq<Byte>, w: nat, j: nat)
    requires w < |bwt| && j < |bwt| && Occ(bwt, 0, w) < Occ(bwt, 0, j)
    ensures j > w
  {
    hide Occ;
    if j <= w {
      OccMonotone(bwt, 0, j, w);
    }
  }

  lemma NulFirst(ext: seq<Byte>, sa: seq<nat>)
    requires SortedRows(ext, sa)
    ensures ext[sa[0]] == 0 && Next(|ext|, sa[0]) == 0
  {
    SentinelRow(ext, sa);
  }

  /** A step that is not exact gains or loses the first row of what it leaves. */
  lemma NulStepFails(ext: seq<Byte>, sa: seq<nat>, bwt: seq<Byte>, w: nat, l: nat, r: nat, p: seq<Byte>)
    requires SortedRows(ext, sa) && BwtOf(ext, sa, bwt) && w < |sa| == |bwt| && sa[w] == 0 && bwt[w] == 0
    requires CircularInterval(ext, sa, l, r, p) && l <= r <= |bwt| && !NulStepExact(bwt, w, l, r)
    ensures !CircularInterval(ext, sa, Occ(bwt, 0, l), Occ(bwt, 0, r), [0] + p)
  {
    hide Occ, BwtOf, ReadsAt, SortedRows;
    RowsWithin(ext, sa);
    NulFirst(ext, sa);
    OccMonotone(bwt, 0, l, r);
    OccAtMost(bwt, 0, r);
    if w < r {
      NulRowReads(ext, sa, l, r, p, 0);
      RowUnique(ext, sa, w, RowOf(ext, sa, 0));
    } else {
      var x := Occ(bwt, 0, l);
      if ReadsAt(ext, sa[x], [0] + p) {
        ReadsStep(ext, sa[x], 0, p);
        NulRowReads(ext, sa, l, r, p, x);
        NulRowCount(ext, sa, bwt, w, x);
        OccMonotone(bwt, 0, l, RowOf(ext, sa, Next(|ext|, sa[x])));
      }
    }
  }

  /** For every text: a NUL step taken from the exact rows of a tail read
      around the text is exact if and only if the condition on the bounds holds. */
  lemma NulStepIff(text: seq<Byte>, fm: FmIndex, w: nat, l: nat, r: nat, p: seq<Byte>)
    requires Valid(text, fm) && w < |fm.suffixArray| && fm.suffixArray[w] == 0
    requires l <= r <= |fm.bwt| && CircularInterval(Extended(text), fm.suffixArray, l, r, p)
    ensures CircularInterval(Extended(text), fm.suffixArray, FirstRow(fm.firstOccurrence, 0) + Occ(fm.bwt, 0, l),
                             FirstRow(fm.firstOccurrence, 0) + Occ(fm.bwt, 0, r), [0] + p)
            <==> NulStepExact(fm.bwt, w, l, r)
  {
    hide SortedRows, FirstRows, Counts, Occ, BwtOf, ReadsAt;
    var ext, sa, bwt := Extended(text), fm.suffixArray, fm.bwt;
    FirstIsNul(text, sa, fm.firstOccurrence);
    var v := WholeRow(ext, sa, bwt);
    RowUnique(ext, sa, v, w);
    if NulStepExact(bwt, w, l, r) {
      hide NulStepExact;
      OccMonotone(bwt, 0, l, r);
      OccAtMost(bwt, 0, r);
      forall x: nat {:trigger sa[x]} | x < |sa| && sa[x] < |ext|
        ensures Occ(bwt, 0, l) <= x < Occ(bwt, 0, r) <==> ReadsAt(ext, sa[x], [0] + p)
      {
        if Occ(bwt, 0, l) <= x < Occ(bwt, 0, r) {
          NulStepComplete(ext, sa, bwt, w, l, r, p, x);
        }
        if ReadsAt(ext, sa[x], [0] + p) {
          NulStepSound(ext, sa, bwt, w, l, r, p, x);
        }
      }
    } else {
      NulStepFails(ext, sa, bwt, w, l, r, p);
    }
  }

  // --- for which texts the index reads around the text

  /** The positions of the extended text at which the pattern is read, wrapping. */
  function CircularMatches(ext: seq<Byte>, pattern: seq<Byte>): set<nat> {
    set q: nat | q < |ext| && ReadsAt(ext, q, pattern)
  }

  /** From `a` on, around the end, the text reads as from its start. */
  predicate Home(ext: seq<Byte>, a: nat)
    requires a <= |ext|
  {
    ext[a..] + ext[..a] == ext
  }

  /** After each early NUL inside the text, the text reads as from its start. */
  predicate Faithful(ext: seq<Byte>) {
    forall q: nat :: q + 1 < |ext| && Early(ext, q) ==> Home(ext, q + 1)
  }

  function Turn(n: nat, i: nat, a: nat): (r: nat)
    requires i < n && a <= n
    ensures r < n
  {
    if i + a < n then i + a else i + a - n
  }

  lemma {:induction false} TurnedReads(ext: seq<Byte>, a: nat, i: nat, p: seq<Byte>)
    requires a < |ext| && Home(ext, a) && i < |ext|
    ensures ReadsAt(ext, Turn(|ext|, i, a), p) <==> ReadsAt(ext, i, p)
    decreases |p|
  {
    if p != [] {
      TurnedReads(ext, a, Next(|ext|, i), p[1..]);
      TurnedByte(ext, a, i);
    }
  }

  lemma TurnedByte(ext: seq<Byte>, a: nat, i: nat)
    requires a < |ext| && Home(ext, a) && i < |ext|
    ensures ext[Turn(|ext|, i, a)] == ext[i]
  {
    assert (ext[a..] + ext[..a])[i] == ext[i];
  }

  lemma HomeReads(ext: seq<Byte>, a: nat, p: seq<Byte>)
    requires a < |ext| && (a == 0 || Home(ext, a))
    ensures ReadsAt(ext, a, p) <==> ReadsAt(ext, 0, p)
  {
    if a > 0 {
      TurnedReads(ext, a, 0, p);
    }
  }

  lemma {:induction false} ReadsIndex(ext: seq<Byte>, q: nat, p: seq<Byte>, i: nat)
    requires q < |ext| && ReadsAt(ext, q, p) && i < |p| <= |ext|
    ensures p[i] == ext[Turn(|ext|, q, i)]
    decreases i
  {
    if i > 0 {
      ReadsIndex(ext, Next(|ext|, q), p[1..], i - 1);
    }
  }

  /** Only where the text reads as from its start can it be read as a whole. */
  lemma ReadsWhole(ext: seq<Byte>, a: nat)
    requires a < |ext| && ReadsAt(ext, a, ext)
    ensures Home(ext, a)
  {
    hide ReadsAt;
    var turned := ext[a..] + ext[..a];
    forall i | 0 <= i < |ext| ensures turned[i] == ext[i] {
      ReadsIndex(ext, a, ext, i);
    }
  }

  lemma {:induction false} WholeReads(ext: seq<Byte>, k: nat)
    requires k < |ext|
    ensures ReadsAt(ext, k, ext[k..])
    decreases |ext| - k
  {
    if k + 1 < |ext| {
      WholeReads(ext, k + 1);
      assert ext[k..][1..] == ext[k + 1..];
    }
  }

  /** What follows an early NUL, on the way of the index and around the text. */
  lemma BothHome(ext: seq<Byte>, sa: seq<nat>, q: nat)
    requires SortedRows(ext, sa) && Faithful(ext) && q < |ext| && Early(ext, q)
    ensures
      var a, b := After(ext, sa, q), Next(|ext|, q);
      (a == 0 || Home(ext, a)) && (b == 0 || Home(ext, b))
  {
    hide LexLeq, Home, Early;
    SentinelRow(ext, sa);
  }

  lemma {:induction false} FollowsAround(ext: seq<Byte>, sa: seq<nat>, q: nat, p: seq<Byte>)
    requires SortedRows(ext, sa) && Faithful(ext) && q < |ext|
    ensures Follows(ext, sa, q, p) <==> ReadsAt(ext, q, p)
    decreases |p|
  {
    hide SortedRows, After, Faithful, Home;
    if p != [] {
      var a, b := After(ext, sa, q), Next(|ext|, q);
      FollowsAround(ext, sa, a, p[1..]);
      if Early(ext, q) {
        BothHome(ext, sa, q);
        HomeReads(ext, a, p[1..]);
        HomeReads(ext, b, p[1..]);
      } else {
        AfterLate(ext, sa, q);
      }
    }
  }

  lemma AfterLate(ext: seq<Byte>, sa: seq<nat>, q: nat)
    requires SortedRows(ext, sa) && q < |ext| && !Early(ext, q)
    ensures After(ext, sa, q) == q + 1 == Next(|ext|, q)
  {
    SentinelEarly(ext);
  }

  ghost predicate AnswersAround(ext: seq<Byte>, sa: seq<nat>)
    requires SortedRows(ext, sa)
  {
    forall p :: Found(ext, sa, p) == CircularMatches(ext, p)
  }

  lemma AroundAt(ext: seq<Byte>, sa: seq<nat>, q: nat, p: seq<Byte>)
    requires SortedRows(ext, sa) && AnswersAround(ext, sa) && q < |ext|
    ensures Follows(ext, sa, q, p) <==> ReadsAt(ext, q, p)
  {
    hide SortedRows, Follows, ReadsAt;
    assert q in Found(ext, sa, p) <==> q in CircularMatches(ext, p);
  }

  lemma {:induction false} EarlyHome(text: seq<Byte>, fm: FmIndex, k: nat)
    requires Valid(text, fm) && AnswersAround(Extended(text), fm.suffixArray)
    requires 0 < k < |fm.suffixArray| && Early(Extended(text), fm.suffixArray[k])
    ensures fm.suffixArray[k] + 1 < |Extended(text)| && Home(Extended(text), fm.suffixArray[k] + 1)
  {
    hide SortedRows, FirstRows, Counts, BwtOf, Occ, Early, After, Home, Follows, ReadsAt, AnswersAround, Extended;
    var ext, sa, bwt := Extended(text), fm.suffixArray, fm.bwt;
    var w := WholeRow(ext, sa, bwt);
    EarlyRows(ext, sa, bwt, w, k);
    EarlyRows(ext, sa, bwt, w, k - 1);
    RowsWithin(ext, sa);
    SentinelRow(ext, sa);
    EarlyNul(ext, sa[k - 1]);
    AfterNul(ext, sa, bwt, w, k - 1);
    var q, a := sa[k - 1], sa[k] + 1;
    AroundAt(ext, sa, q, [0] + ext);
    AroundAt(ext, sa, a, ext);
    FollowsStep(ext, sa, q, 0, ext);
    ReadsStep(ext, q, 0, ext);
    if k > 1 {
      EarlyHome(text, fm, k - 1);
    }
    HomeReads(ext, Next(|ext|, q), ext);
    WholeReads(ext, 0);
    assert ext[0..] == ext;
    ReadsWhole(ext, a);
  }

  lemma EarlyNul(ext: seq<Byte>, q: nat)
    requires q < |ext| && Early(ext, q)
    ensures ext[q] == 0
  {
  }

  /** The index answers every pattern as read around the text if and only if
      after each NUL of the text whose rest sorts no later than the text, the
      text reads as from its start. */
  lemma FaithfulIff(text: seq<Byte>, fm: FmIndex)
    requires Valid(text, fm)
    ensures AnswersAround(Extended(text), fm.suffixArray) <==> Faithful(Extended(text))
  {
    hide SortedRows, FirstRows, Counts, BwtOf, Early, Home, Follows, ReadsAt;
    var ext, sa := Extended(text), fm.suffixArray;
    if Faithful(ext) {
      hide Faithful;
      forall q: nat, p | q < |ext| ensures Follows(ext, sa, q, p) <==> ReadsAt(ext, q, p) {
        FollowsAround(ext, sa, q, p);
      }
    }
    if AnswersAround(ext, sa) {
      hide AnswersAround;
      forall q: nat | q + 1 < |ext| && Early(ext, q) ensures Home(ext, q + 1) {
        var k := RowOf(ext, sa, q);
        NulRowPositive(ext, sa, k);
        EarlyHome(text, fm, k);
      }
    }
  }

  /** Away from the end nothing wraps, and reading is occurring. */
  lemma {:induction false} ReadsUnwrapped(text: seq<Byte>, q: nat, p: seq<Byte>)
    requires q + |p| <= |text|
    ensures ReadsAt(Extended(text), q, p) <==> OccursAt(text, p, q)
    decreases |p|
  {
    hide OccursAt;
    if p == [] {
      OccursNothing(text, q);
    } else {
      ReadsUnwrapped(text, q + 1, p[1..]);
      OccursStep(text, q, p);
    }
  }

  lemma OccursNothing(text: seq<Byte>, q: nat)
    requires q <= |text|
    ensures OccursAt(text, [], q)
  {
  }

  /** Where fewer bytes are left than the pattern has, it is read around the end. */
  predicate ReadsOverEnd(text: seq<Byte>, p: seq<Byte>) {
    exists q: nat :: q <= |text| < q + |p| && ReadsAt(Extended(text), q, p)
  }

  /** The pattern is read from `q` as the text stands up to an early NUL, the first
      on the way, and there the rest of the pattern is read on where the index
      goes although it does not stand next in the text, or the other way round. */
  ghost predicate Derails(text: seq<Byte>, sa: seq<nat>, q: nat, p: seq<Byte>)
    requires SortedRows(Extended(text), sa) && q <= |text|
    decreases |p|
  {
    var ext := Extended(text);
    && p != [] && ext[q] == p[0]
    && if Early(ext, q) then Follows(ext, sa, After(ext, sa, q), p[1..]) <==> !OccursAt(text, p[1..], q + 1)
       else q < |text| && Derails(text, sa, q + 1, p[1..])
  }

  /** For every text, pattern and position: the index is right about the position
      if and only if the pattern does not derail from it. */
  lemma {:induction false} RightIff(text: seq<Byte>, sa: seq<nat>, q: nat, p: seq<Byte>)
    requires SortedRows(Extended(text), sa) && q <= |text|
    ensures (Follows(Extended(text), sa, q, p) <==> OccursAt(text, p, q)) <==> !Derails(text, sa, q, p)
    decreases |p|
  {
    hide SortedRows, After, Early, OccursAt;
    var ext := Extended(text);
    if p == [] {
      OccursNothing(text, q);
    } else {
      OccursFirst(text, q, p);
      if !Early(ext, q) {
        SentinelEarly(ext);
        AfterLate(ext, sa, q);
        RightIff(text, sa, q + 1, p[1..]);
      }
    }
  }

  lemma OccursFirst(text: seq<Byte>, q: nat, p: seq<Byte>)
    requires q <= |text| && p != []
    ensures OccursAt(text, p, q) <==> Extended(text)[q] == p[0] && OccursAt(text, p[1..], q + 1)
  {
    hide OccursAt;
    if q < |text| {
      OccursStep(text, q, p);
    } else {
      OccursWithin(text, q, p);
      OccursWithin(text, q + 1, p[1..]);
    }
  }

  ghost predicate DerailsNowhere(text: seq<Byte>, sa: seq<nat>, p: seq<Byte>)
    requires SortedRows(Extended(text), sa)
  {
    forall q: nat :: q <= |text| ==> !Derails(text, sa, q, p)
  }

  lemma PlainUnlessDerailed(text: seq<Byte>, fm: FmIndex, pattern: seq<Byte>)
    requires Valid(text, fm)
    ensures Found(Extended(text), fm.suffixArray, pattern) == Matches(text, pattern) <==>
            DerailsNowhere(text, fm.suffixArray, pattern)
  {
    hide SortedRows, FirstRows, Counts, BwtOf, Follows, OccursAt, Derails;
    var found, plain := Found(Extended(text), fm.suffixArray, pattern), Matches(text, pattern);
    forall q: nat | q <= |text|
      ensures q in found <==> Follows(Extended(text), fm.suffixArray, q, pattern)
      ensures q in plain <==> OccursAt(text, pattern, q)
      ensures (q in found <==> q in plain) <==> !Derails(text, fm.suffixArray, q, pattern)
    {
      RightIff(text, fm.suffixArray, q, pattern);
    }
    if DerailsNowhere(text, fm.suffixArray, pattern) {
      forall q: nat ensures q in found <==> q in plain {
        if q <= |text| {
          assert !Derails(text, fm.suffixArray, q, pattern);
        }
      }
      assert found == plain;
    } else {
      var q: nat :| q <= |text| && Derails(text, fm.suffixArray, q, pattern);
      assert q in found <==> q !in plain;
    }
  }

  /** For every text that is read around faithfully, and every pattern: the
      answer is the plain one if and only if the pattern is not read over the
      end of the text. */
  lemma FaithfulPlainIff(text: seq<Byte>, fm: FmIndex, pattern: seq<Byte>)
    requires Valid(text, fm) && Faithful(Extended(text))
    ensures Found(Extended(text), fm.suffixArray, pattern) == Matches(text, pattern) <==> !ReadsOverEnd(text, pattern)
  {
    hide SortedRows, FirstRows, Counts, BwtOf, Follows, ReadsAt, OccursAt, Faithful;
    var ext, sa := Extended(text), fm.suffixArray;
    forall q: nat | q <= |text|
      ensures q in Found(ext, sa, pattern) <==> ReadsAt(ext, q, pattern)
      ensures q + |pattern| <= |text| ==> (q in Matches(text, pattern) <==> ReadsAt(ext, q, pattern))
      ensures q + |pattern| > |text| ==> q !in Matches(text, pattern)
    {
      FollowsAround(ext, sa, q, pattern);
      OccursWithin(text, q, pattern);
      if q + |pattern| <= |text| {
        ReadsUnwrapped(text, q, pattern);
      }
    }
    if Found(ext, sa, pattern) == Matches(text, pattern) {
      forall q: nat | q <= |text| < q + |pattern| ensures !ReadsAt(ext, q, pattern) {
        assert q !in Found(ext, sa, pattern);
      }
    }
    if !ReadsOverEnd(text, pattern) {
      SameUnlessOver(text, sa, pattern);
    }
  }

  lemma SameUnlessOver(text: seq<Byte>, sa: seq<nat>, pattern: seq<Byte>)
    requires SortedRows(Extended(text), sa) && !ReadsOverEnd(text, pattern)
    requires forall q: nat :: q <= |text| ==>
             (q in Found(Extended(text), sa, pattern) <==> ReadsAt(Extended(text), q, pattern))
    requires forall q: nat :: q + |pattern| <= |text| ==>
               (q in Matches(text, pattern) <==> ReadsAt(Extended(text), q, pattern))
    ensures Found(Extended(text), sa, pattern) == Matches(text, pattern)
  {
    hide SortedRows, Follows, ReadsAt;
    forall q: nat ensures q in Found(Extended(text), sa, pattern) <==> q in Matches(text, pattern) {
      OccursWithin(text, q, pattern);
    }
  }

  // --- texts without NUL

  function FirstNul(p: seq<Byte>): (z: nat)
    ensures z <= |p| && 0 !in p[..z] && (z < |p| ==> p[z] == 0)
  {
    if p == [] || p[0] == 0 then 0
    else
      var z := 1 + FirstNul(p[1..]);
      assert p[..z] == [p[0]] + p[1..][..z - 1];
      z
  }

  /** Whole copies of the text, each closed by NUL, and then a prefix of it. */
  predicate Laps(text: seq<Byte>, p: seq<Byte>)
    decreases |p|
  {
    var z := FirstNul(p);
    if z == |p| then p <= text else p[..z] == text && Laps(text, p[z + 1..])
  }

  /** A suffix of the text, NUL, and laps around the text. */
  predicate SpansNul(text: seq<Byte>, p: seq<Byte>) {
    var z := FirstNul(p);
    z < |p| && z <= |text| && p[..z] == text[|text| - z..] && Laps(text, p[z + 1..])
  }

  lemma {:induction false} ReadsSplit(text: seq<Byte>, q: nat, a: seq<Byte>, b: seq<Byte>)
    requires q <= |text| && 0 !in a
    ensures ReadsAt(Extended(text), q, a + b) <==> OccursAt(text, a, q) && ReadsAt(Extended(text), q + |a|, b)
    decreases |a|
  {
    if a == [] {
      assert a + b == b;
    } else {
      assert a + b == [a[0]] + (a[1..] + b);
      hide OccursAt;
      ReadsStep(Extended(text), q, a[0], a[1..] + b);
      if q < |text| {
        ReadsSplit(text, q + 1, a[1..], b);
        OccursStep(text, q, a);
      } else {
        OccursWithin(text, q, a);
      }
    }
  }

  lemma OccursWithin(text: seq<Byte>, q: nat, p: seq<Byte>)
    ensures OccursAt(text, p, q) ==> q + |p| <= |text|
  {
  }

  /** Reading past the sentinel starts over. */
  lemma ReadsSentinel(text: seq<Byte>, q: nat, rest: seq<Byte>)
    requires 0 !in text && q <= |text|
    ensures ReadsAt(Extended(text), q, [0] + rest) <==> q == |text| && ReadsAt(Extended(text), 0, rest)
  {
    hide ReadsAt;
    ReadsStep(Extended(text), q, 0, rest);
  }

  lemma {:induction false} LapsReads(text: seq<Byte>, p: seq<Byte>)
    requires 0 !in text
    ensures ReadsAt(Extended(text), 0, p) <==> Laps(text, p)
    decreases |p|
  {
    hide ReadsAt, Extended;
    var z := FirstNul(p);
    var a, b := p[..z], p[z..];
    assert p == a + b;
    ReadsSplit(text, 0, a, b);
    if z == |p| {
      ReadsNothing(text, z);
    } else {
      var rest := p[z + 1..];
      assert b == [0] + rest;
      LapsReads(text, rest);
      if z <= |text| {
        ReadsSentinel(text, z, rest);
      }
    }
  }

  lemma ReadsNothing(text: seq<Byte>, q: nat)
    ensures q <= |text| ==> ReadsAt(Extended(text), q, [])
  {
  }

  lemma ReadsSpan(text: seq<Byte>, q: nat, a: seq<Byte>, rest: seq<Byte>)
    requires 0 !in text && 0 !in a && q <= |text|
    ensures ReadsAt(Extended(text), q, a + ([0] + rest)) <==>
            |a| <= |text| && a == text[|text| - |a|..] && q == |text| - |a| && Laps(text, rest)
  {
    hide ReadsAt, Extended, Laps;
    ReadsSplit(text, q, a, [0] + rest);
    LapsReads(text, rest);
    if q + |a| <= |text| {
      ReadsSentinel(text, q + |a|, rest);
    }
  }

  lemma SpanReads(text: seq<Byte>, q: nat, p: seq<Byte>)
    requires 0 !in text && 0 in p && q <= |text|
    ensures ReadsAt(Extended(text), q, p) <==> SpansNul(text, p) && q == |text| - FirstNul(p)
  {
    hide ReadsAt, Extended, Laps, FirstNul;
    NulFound(p);
    var z := FirstNul(p);
    var a, rest := p[..z], p[z + 1..];
    SplitAt(p, z);
    assert p == a + ([0] + rest);
    ReadsSpan(text, q, a, rest);
  }

  lemma NulFound(p: seq<Byte>)
    requires 0 in p
    ensures FirstNul(p) < |p|
  {
    hide FirstNul;
    assert p[..|p|] == p;
  }

  lemma SplitAt<T>(p: seq<T>, z: nat)
    requires z < |p|
    ensures p == p[..z] + ([p[z]] + p[z + 1..])
  {
  }

  /** In a text without NUL the answer is the plain one if and only if the
      pattern is not a suffix of the text, NUL, whole copies of the text closed
      by NUL, and a prefix of it; such a pattern occurs nowhere and is found once. */
  lemma NulPatternIff(text: seq<Byte>, fm: FmIndex, pattern: seq<Byte>)
    requires Valid(text, fm) && 0 !in text
    ensures Found(Extended(text), fm.suffixArray, pattern) == Matches(text, pattern) <==> !SpansNul(text, pattern)
    ensures SpansNul(text, pattern) ==>
              && Found(Extended(text), fm.suffixArray, pattern) == {|text| - FirstNul(pattern)}
              && Matches(text, pattern) == {}
  {
    hide SortedRows, FirstRows, Counts, BwtOf, SpansNul, Matches, Follows, ReadsAt;
    var ext, sa := Extended(text), fm.suffixArray;
    if 0 in pattern {
      NoPlainNul(text, pattern);
      TextFaithful(text);
      forall q: nat | q < |ext|
        ensures Follows(ext, sa, q, pattern) <==> SpansNul(text, pattern) && q == |text| - FirstNul(pattern)
      {
        FollowsAround(ext, sa, q, pattern);
        SpanReads(text, q, pattern);
      }
      if SpansNul(text, pattern) {
        SpanWithin(text, pattern);
        assert |text| - FirstNul(pattern) in Found(ext, sa, pattern);
      } else {
        assert Found(ext, sa, pattern) == {};
      }
    } else {
      PlainMatches(text, sa, pattern);
      NoSpan(text, pattern);
    }
  }

  /** For every text and every pattern: the answer is the plain one if and only if
      the pattern derails from no position. In a text that is read around
      faithfully that is so unless it is read over the end of the text, and in a
      text without NUL unless it is a suffix of the text, NUL, laps around the text
      and a prefix; then it occurs nowhere and is found once. */
  lemma PlainIff(text: seq<Byte>, fm: FmIndex, pattern: seq<Byte>)
    requires Valid(text, fm)
    ensures
      var plain := Found(Extended(text), fm.suffixArray, pattern) == Matches(text, pattern);
      && (plain <==> DerailsNowhere(text, fm.suffixArray, pattern))
      && (Faithful(Extended(text)) ==> (plain <==> !ReadsOverEnd(text, pattern)))
      && (0 !in text ==> (plain <==> !SpansNul(text, pattern)))
    ensures 0 !in text && SpansNul(text, pattern) ==>
              && Found(Extended(text), fm.suffixArray, pattern) == {|text| - FirstNul(pattern)}
              && Matches(text, pattern) == {}
  {
    hide SortedRows, FirstRows, Counts, BwtOf, SpansNul, Matches, Follows, ReadsOverEnd, Faithful,
         DerailsNowhere, Found;
    PlainUnlessDerailed(text, fm, pattern);
    if Faithful(Extended(text)) {
      FaithfulPlainIff(text, fm, pattern);
    }
    if 0 !in text {
      NulPatternIff(text, fm, pattern);
    }
  }

  lemma TextFaithful(text: seq<Byte>)
    requires 0 !in text
    ensures Faithful(Extended(text))
  {
    var ext := Extended(text);
    forall q: nat | q + 1 < |ext| ensures !Early(ext, q) {
      assert ext[q] == text[q];
    }
  }

  lemma SpanWithin(text: seq<Byte>, p: seq<Byte>)
    requires SpansNul(text, p)
    ensures FirstNul(p) <= |text|
  {
  }

  lemma NoSpan(text: seq<Byte>, p: seq<Byte>)
    requires 0 !in p
    ensures !SpansNul(text, p)
  {
  }

  lemma NoPlainNul(text: seq<Byte>, pattern: seq<Byte>)
    requires 0 !in text && 0 in pattern
    ensures Matches(text, pattern) == {}
  {
    var z :| 0 <= z < |pattern| && pattern[z] == 0;
    forall q: nat ensures !OccursAt(text, pattern, q) {
      if q + |pattern| <= |text| {
        assert text[q..q + |pattern|][z] == text[q + z];
      }
    }
  }

  // --- what callers get

  /** Index the text, search it: for a non-empty pattern without NUL, every
      occurrence once and nothing else, and their number. */
  method BuildAndSearch(text: seq<Byte>, pattern: seq<Byte>) returns (count: nat, positions: seq<nat>)
    requires pattern != [] && 0 !in pattern
    ensures Distinct(positions) && Elems(positions) == Matches(text, pattern)
    ensures count == |positions| == |Matches(text, pattern)|
  {
    hide SortedRows, FirstRows, Counts, BwtOf, Follows, Found, Matches;
    var fm := New(text);
    PlainMatches(text, fm.suffixArray, pattern);
    count := CountOccurrences(fm, pattern, text);
    positions := Search(fm, pattern, text);
    DistinctSize(positions);
  }

  /** The text "a" and the pattern "a NUL a": found at 0, though it does not occur. */
  method SpuriousOccurrence() returns (positions: seq<nat>)
    ensures positions == [0] && Matches([97], [97, 0, 97]) == {}
  {
    hide SortedRows, FirstRows, Counts, BwtOf, Follows, Found, Matches;
    var text: seq<Byte>, pattern: seq<Byte> := [97], [97, 0, 97];
    var fm := New(text);
    positions := Search(fm, pattern, text);
    SpuriousSpan(text, pattern);
    NulPatternIff(text, fm, pattern);
    Single(positions, 0);
  }

  lemma SpuriousSpan(text: seq<Byte>, pattern: seq<Byte>)
    requires text == [97] && pattern == [97, 0, 97]
    ensures SpansNul(text, pattern) && FirstNul(pattern) == 1 && 0 !in text
  {
    assert pattern[1..] == [0, 97];
    assert pattern[2..] == [97];
    assert FirstNul([97]) == 1 by { assert FirstNul([97][1..]) == 0; }
    assert Laps(text, pattern[2..]);
  }

  lemma Single(s: seq<nat>, x: nat)
    requires Distinct(s) && Elems(s) == {x}
    ensures s == [x]
  {
    DistinctSize(s);
    assert s[0] in Elems(s);
  }

  /** The text "a NUL NUL" and the same pattern: not found, though it occurs at 0. */
  method MissedOccurrence() returns (count: nat, positions: seq<nat>)
    ensures count == 0 && positions == [] && 0 in Matches([97, 0, 0], [97, 0, 0])
  {
    hide SortedRows, FirstRows, Counts, BwtOf, Follows, Found;
    var text: seq<Byte>, pattern: seq<Byte> := [97, 0, 0], [97, 0, 0];
    var fm := New(text);
    count := CountOccurrences(fm, pattern, text);
    positions := Search(fm, pattern, text);
    NotFollowed(text, fm.suffixArray, pattern);
    ElemsNonempty(positions);
    assert text[0..0 + |pattern|] == pattern;
  }

  lemma NotFollowed(text: seq<Byte>, sa: seq<nat>, pattern: seq<Byte>)
    requires text == [97, 0, 0] && pattern == [97, 0, 0] && SortedRows(Extended(text), sa)
    ensures Found(Extended(text), sa, pattern) == {}
  {
    var ext := Extended(text);
    FirstNulLoops(ext, sa);
    hide SortedRows, After;
    AfterOther(ext, sa, 0);
    assert pattern == [97] + [0, 0] && [0, 0] == [0] + [0];
    hide Follows;
    forall q: nat | q < |ext| ensures !Follows(ext, sa, q, pattern) {
      FollowsStep(ext, sa, q, 97, [0, 0]);
      FollowsStep(ext, sa, 1, 0, [0]);
      FollowsStep(ext, sa, 0, 0, []);
      assert [0] + [] == [0];
    }
  }

  /** The last early NUL of "a NUL NUL" is the first, so it is followed by the
      start of the text. */
  lemma FirstNulLoops(ext: seq<Byte>, sa: seq<nat>)
    requires ext == [97, 0, 0, 0] && SortedRows(ext, sa)
    ensures After(ext, sa, 1) == 0
  {
    hide LexLeq, Early;
    var x := RowOf(ext, sa, 1);
    NulsOf(ext);
    if x + 1 < |sa| {
      assert LexLeq(ext[1..], ext[sa[x + 1]..]);
      assert sa[x + 1] != 2 && sa[x + 1] != 3;
      assert sa[x + 1] == 0;
    }
  }

  lemma NulsOf(ext: seq<Byte>)
    requires ext == [97, 0, 0, 0]
    ensures !LexLeq(ext[1..], ext[2..]) && !LexLeq(ext[1..], ext[3..])
    ensures Early(ext, 1) && !Early(ext, 0)
  {
    assert ext[1..] == [0, 0, 0] && ext[2..] == [0, 0] && ext[3..] == [0];
    assert [0, 0, 0][1..] == [0, 0] && [0, 0][1..] == [0] && [0][1..] == [];
    assert !LexLeq([0], []);
    assert !LexLeq([0, 0], [0]);
    assert LexLeq([0, 0], ext);
  }
}
