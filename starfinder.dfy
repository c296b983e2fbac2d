/** Star detection by `find_stars`: one forward raster pass over a row-major
    image labels the pixels brighter than a threshold, growing a segment per
    label; segments with fewer pixels than the minimum size are dropped, each
    remaining segment gets its mass (the sum of its pixel values) and its
    centroid, and the result is sorted by mass. The threshold is given as an
    integer: deriving it from the mean and standard deviation is
    floating-point arithmetic. Masses are sums of integer pixel values, which
    an f64 holds exactly here; centroids are computed on exact reals. */
module StarFinder {
  import opened Wrappers
  import opened Sorting
  import FrameStatistics
  import CF = CameraFrames

  const I32_MIN: int := -0x8000_0000
  const I32_MAX: int := 0x7FFF_FFFF

  /** Detection options; the threshold is in standard deviations above the
      mean, the minimum size in pixels. */
  datatype FindStarsOptions = FindStarsOptions(threshold: real, minsize: nat)

  /** `FindStarsOptions::defaults`. */
  function Defaults(): (o: FindStarsOptions)
    ensures o.threshold == 2.5 && o.minsize == 2
  {
    FindStarsOptions(2.5, 2)
  }

  /** A connected group of bright pixels as (row, column) pairs, with its
      centroid as (column, row) and its mass. A centroid that f64 arithmetic
      leaves non-finite (a division by a zero count or a zero mass) is None. */
  datatype Segment = Segment(indices: seq<(nat, nat)>, centroid: Option<(real, real)>, mass: int)

  /** `Segment::new`. */
  function NewSegment(): (s: Segment)
    ensures s.indices == [] && s.centroid == Some((0.0, 0.0)) && s.mass == 0
  {
    Segment([], Some((0.0, 0.0)), 0)
  }

  /** The (row, column) pushed for raster position j. */
  function Pos(cols: nat, j: nat): (nat, nat)
    requires cols > 0
  {
    (j / cols, j % cols)
  }

  /** The raster position read for pixel p: `row * cols + col`. */
  function Lin(cols: nat, p: (nat, nat)): nat {
    p.0 * cols + p.1
  }

  /** Pos and Lin are inverse on the image. */
  lemma LinPos(rows: nat, cols: nat, j: nat)
    requires j < rows * cols
    ensures cols > 0
    ensures Pos(cols, j).0 < rows && Pos(cols, j).1 < cols
    ensures Lin(cols, Pos(cols, j)) == j
  {
    CF.OffsetCoords(CF.RowMajor, rows, cols, j);
  }

  // ---------------------------------------------------------------------
  // The raster pass as a function of the state

  /** The state of the raster pass: the label of every pixel (-1 for none)
      and, per segment, the raster positions of its pixels in the order they
      were pushed. */
  datatype Labels = Labels(mask: seq<int>, members: seq<seq<nat>>)

  /** Every label is -1 or names a segment. */
  ghost predicate InRange(st: Labels) {
    forall j | 0 <= j < |st.mask| :: -1 <= st.mask[j] < |st.members|
  }

  /** The state before the pass: `vec![-1; pix.len()]` and no segments. */
  function Initial(n: nat): (st: Labels)
    ensures |st.mask| == n && st.members == [] && InRange(st)
  {
    Labels(seq(n, _ => -1), [])
  }

  /** Pixel j joins segment k: `mask[j] = k` and a push onto segment k. */
  function Linked(st: Labels, j: nat, k: nat): (r: Labels)
    requires j < |st.mask| && k < |st.members|
    ensures |r.mask| == |st.mask| && |r.members| == |st.members|
  {
    Labels(st.mask[j := k], st.members[k := st.members[k] + [j]])
  }

  /** Pixel idx starts a new segment holding just itself. */
  function Created(st: Labels, idx: nat): (r: Labels)
    requires idx < |st.mask|
    ensures |r.mask| == |st.mask| && |r.members| == |st.members| + 1
  {
    Labels(st.mask[idx := |st.members|], st.members + [[idx]])
  }

  /** Neighbour j of the labelled pixel idx takes its label when j is bright
      and not yet labelled. */
  function Propagated(pix: seq<int>, thresh: int, st: Labels, idx: nat, j: nat): (r: Labels)
    requires |pix| == |st.mask| && idx < |pix| && j < |pix|
    requires InRange(st) && st.mask[idx] != -1
    ensures |r.mask| == |st.mask| && |r.members| == |st.members| && InRange(r)
    ensures r.mask[idx] == st.mask[idx]
  {
    if st.mask[j] == -1 && pix[j] > thresh then Linked(st, j, st.mask[idx]) else st
  }

  /** A neighbour the pass looks at only when cond holds. */
  function PropagatedWhen(cond: bool, pix: seq<int>, thresh: int, st: Labels, idx: nat, j: nat): (r: Labels)
    requires |pix| == |st.mask| && idx < |pix| && (cond ==> j < |pix|)
    requires InRange(st) && st.mask[idx] != -1
    ensures |r.mask| == |st.mask| && |r.members| == |st.members| && InRange(r)
    ensures r.mask[idx] == st.mask[idx]
  {
    if cond then Propagated(pix, thresh, st, idx, j) else st
  }

  /** The bright pixel idx gets a label: a new segment when it has none. */
  function Started(st: Labels, idx: nat): (r: Labels)
    requires idx < |st.mask| && InRange(st)
    ensures |r.mask| == |st.mask| && InRange(r) && r.mask[idx] != -1
  {
    if st.mask[idx] == -1 then Created(st, idx) else st
  }

  /** The neighbours that the pass looks at exist: right when
      col + 1 < cols and, when a next row exists, below-left when col > 0,
      below, and below-right when col + 1 < cols. */
  lemma NeighbourBounds(rows: nat, cols: nat, idx: nat)
    requires idx < rows * cols
    ensures cols > 0
    ensures idx % cols + 1 < cols ==> idx + 1 < rows * cols
    ensures idx / cols < rows - 1 ==> idx + cols < rows * cols
    ensures idx / cols < rows - 1 && idx % cols > 0 ==> idx + cols - 1 < rows * cols
    ensures idx / cols < rows - 1 && idx % cols + 1 < cols ==> idx + cols + 1 < rows * cols
  {
    CF.NonEmptySides(rows, cols);
    var r, c := idx / cols, idx % cols;
    LinPos(rows, cols, idx);
    if c + 1 < cols {
      CF.MulAddBound(r, c + 1, cols, rows);
    }
    if r < rows - 1 {
      CF.MulAddBound(r + 1, c, cols, rows);
      assert (r + 1) * cols == r * cols + cols;
      if c + 1 < cols {
        CF.MulAddBound(r + 1, c + 1, cols, rows);
      }
    }
  }

  /** A neighbour the pass looks at, at raster position `at`, when `when`
      holds. */
  datatype Look = Look(when: bool, at: nat)

  /** The four neighbours one iteration looks at, in the order it looks at
      them. */
  datatype Around = Around(right: Look, belowLeft: Look, below: Look, belowRight: Look)

  /** Each neighbour looked at lies after idx and inside an image of n
      pixels. */
  predicate Fits(a: Around, idx: nat, n: nat) {
    && (a.right.when ==> idx <= a.right.at < n)
    && (a.belowLeft.when ==> idx <= a.belowLeft.at < n)
    && (a.below.when ==> idx <= a.below.at < n)
    && (a.belowRight.when ==> idx <= a.belowRight.at < n)
  }

  /** The neighbours of pixel idx in a rows x cols image: right when
      col + 1 < cols and, when a next row exists, below-left when col > 0,
      below, and below-right when col + 1 < cols. */
  function Neighbours(rows: nat, cols: nat, idx: nat): (a: Around)
    requires idx < rows * cols
    ensures Fits(a, idx, rows * cols)
  {
    NeighbourBounds(rows, cols, idx);
    var below := idx / cols < rows - 1;
    Around(Look(idx % cols + 1 < cols, idx + 1),
           Look(below && idx % cols > 0, idx + cols - 1),
           Look(below, idx + cols),
           Look(below && idx % cols + 1 < cols, idx + cols + 1))
  }

  /** The neighbours in `a` looked at in turn from the labelled pixel idx. */
  function Bright(pix: seq<int>, thresh: int, st: Labels, idx: nat, a: Around): (r: Labels)
    requires |pix| == |st.mask| && idx < |pix| && InRange(st) && st.mask[idx] != -1
    requires Fits(a, idx, |pix|)
    ensures |r.mask| == |st.mask| && InRange(r)
  {
    var s1 := PropagatedWhen(a.right.when, pix, thresh, st, idx, a.right.at);
    var s2 := PropagatedWhen(a.belowLeft.when, pix, thresh, s1, idx, a.belowLeft.at);
    var s3 := PropagatedWhen(a.below.when, pix, thresh, s2, idx, a.below.at);
    PropagatedWhen(a.belowRight.when, pix, thresh, s3, idx, a.belowRight.at)
  }

  /** One iteration of the raster loop at pixel idx with neighbours `a`: a
      bright pixel without a label starts a segment, then a bright pixel
      passes its label on to each neighbour it looks at that is bright and
      unlabelled. A dark pixel changes nothing. */
  function Step(pix: seq<int>, thresh: int, st: Labels, idx: nat, a: Around): (r: Labels)
    requires |pix| == |st.mask| && idx < |pix| && InRange(st) && Fits(a, idx, |pix|)
    ensures |r.mask| == |st.mask| && InRange(r)
  {
    if pix[idx] <= thresh then st
    else Bright(pix, thresh, Started(st, idx), idx, a)
  }

  /** Every entry of a neighbour table fits its pixel. */
  predicate Fitting(nb: seq<Around>) {
    forall i | 0 <= i < |nb| :: Fits(nb[i], i, |nb|)
  }

  /** The neighbours of every pixel of a rows x cols image, by raster
      position. */
  function Table(rows: nat, cols: nat): (nb: seq<Around>)
    ensures |nb| == rows * cols && Fitting(nb)
    ensures forall i | 0 <= i < rows * cols :: nb[i] == Neighbours(rows, cols, i)
  {
    seq(rows * cols, i requires 0 <= i < rows * cols => Neighbours(rows, cols, i))
  }

  /** The state reached from st by the iterations of the raster loop from
      pixel `from` on, with the neighbours of pixel i given by nb[i]. */
  function Sweep(pix: seq<int>, thresh: int, nb: seq<Around>, st: Labels, from: nat): (r: Labels)
    requires |nb| == |pix| == |st.mask| && Fitting(nb) && from <= |pix| && InRange(st)
    ensures |r.mask| == |pix| && InRange(r)
    decreases |pix| - from
  {
    if from == |pix| then st
    else Sweep(pix, thresh, nb, Step(pix, thresh, st, from, nb[from]), from + 1)
  }

  /** The state after the whole raster loop. */
  function Pass(pix: seq<int>, thresh: int, nb: seq<Around>): (st: Labels)
    requires |nb| == |pix| && Fitting(nb)
    ensures |st.mask| == |pix| && InRange(st)
  {
    Sweep(pix, thresh, nb, Initial(|pix|), 0)
  }

  // ---------------------------------------------------------------------
  // The invariant of the raster pass

  /** Only pixels brighter than thresh carry a label, and every such pixel
      before `done` carries one. */
  ghost predicate MaskAbove(pix: seq<int>, thresh: int, st: Labels, done: nat) {
    && |st.mask| == |pix|
    && (forall j | 0 <= j < |pix| :: st.mask[j] != -1 ==> pix[j] > thresh)
    && (forall j | 0 <= j < |pix| && j < done :: pix[j] > thresh ==> st.mask[j] != -1)
  }

  /** A labelled pixel is listed in the segment its label names. */
  ghost predicate Listed(st: Labels)
    requires InRange(st)
  {
    forall j | 0 <= j < |st.mask| :: st.mask[j] != -1 ==> j in st.members[st.mask[j]]
  }

  /** Every listed pixel lies in the image and carries the label of the
      segment listing it. */
  ghost predicate Members(st: Labels) {
    forall s, t | 0 <= s < |st.members| && 0 <= t < |st.members[s]| ::
      st.members[s][t] < |st.mask| && st.mask[st.members[s][t]] == s
  }

  /** No segment lists a pixel twice. */
  ghost predicate Distinct(st: Labels) {
    forall s, t1, t2 | 0 <= s < |st.members| && 0 <= t1 < t2 < |st.members[s]| ::
      st.members[s][t1] != st.members[s][t2]
  }

  /** Every segment has a pixel. */
  ghost predicate NonEmpty(st: Labels) {
    forall s | 0 <= s < |st.members| :: |st.members[s]| > 0
  }

  /** A segment's first pixel, the one that created it, precedes its other
      pixels in raster order. */
  ghost predicate FirstLeast(st: Labels) {
    forall s, t | 0 <= s < |st.members| && 0 < t < |st.members[s]| ::
      st.members[s][0] < st.members[s][t]
  }

  /** Segments are created in raster order, each by a pixel before `done`. */
  ghost predicate Raster(st: Labels, done: nat) {
    && (forall s | 0 <= s < |st.members| && |st.members[s]| > 0 :: st.members[s][0] < done)
    && (forall s1, s2 | 0 <= s1 < s2 < |st.members| && |st.members[s1]| > 0 && |st.members[s2]| > 0 ::
          st.members[s1][0] < st.members[s2][0])
  }

  /** The invariant of the raster pass once the pixels before `done` are
      visited. */
  ghost predicate Labelling(pix: seq<int>, thresh: int, st: Labels, done: nat) {
    && InRange(st)
    && MaskAbove(pix, thresh, st, done)
    && Listed(st)
    && Members(st)
    && Distinct(st)
    && NonEmpty(st)
    && FirstLeast(st)
    && Raster(st, done)
  }

  /** Linking j into segment k keeps every label listed. */
  lemma LinkedListed(st: Labels, j: nat, k: nat)
    requires j < |st.mask| && k < |st.members|
    requires InRange(st) && Listed(st)
    ensures InRange(Linked(st, j, k)) && Listed(Linked(st, j, k))
  {
    var r := Linked(st, j, k);
    assert InRange(r);
    forall i | 0 <= i < |r.mask| && r.mask[i] != -1
      ensures i in r.members[r.mask[i]]
    {
      if i != j {
        assert i in st.members[st.mask[i]];
      }
    }
  }

  /** Linking the unlabelled j into segment k keeps every listed pixel
      carrying the label of its segment. */
  lemma LinkedMembers(st: Labels, j: nat, k: nat)
    requires j < |st.mask| && k < |st.members|
    requires Members(st) && st.mask[j] == -1
    ensures Members(Linked(st, j, k))
  {
    var r := Linked(st, j, k);
    forall s, t | 0 <= s < |r.members| && 0 <= t < |r.members[s]|
      ensures r.members[s][t] < |r.mask| && r.mask[r.members[s][t]] == s
    {
      if s != k || t < |st.members[s]| {
        assert r.members[s][t] == st.members[s][t];
      }
    }
  }

  /** Linking the unlabelled j into segment k lists no pixel twice. */
  lemma LinkedDistinct(st: Labels, j: nat, k: nat)
    requires j < |st.mask| && k < |st.members|
    requires Members(st) && Distinct(st) && st.mask[j] == -1
    ensures Distinct(Linked(st, j, k))
  {
    var r := Linked(st, j, k);
    forall s, t1, t2 | 0 <= s < |r.members| && 0 <= t1 < t2 < |r.members[s]|
      ensures r.members[s][t1] != r.members[s][t2]
    {
      if s == k && t2 == |st.members[s]| {
        assert st.mask[st.members[s][t1]] == k;
      } else {
        assert r.members[s][t1] == st.members[s][t1];
        assert r.members[s][t2] == st.members[s][t2];
      }
    }
  }

  /** Linking into segment k a pixel j after its first one keeps the
      first pixels and their order. */
  lemma LinkedOrder(st: Labels, done: nat, j: nat, k: nat)
    requires j < |st.mask| && k < |st.members| && |st.members[k]| > 0 && st.members[k][0] < j
    requires FirstLeast(st) && Raster(st, done)
    ensures FirstLeast(Linked(st, j, k)) && Raster(Linked(st, j, k), done)
  {
    var r := Linked(st, j, k);
    assert forall s | 0 <= s < |r.members| && |r.members[s]| > 0 :: r.members[s][0] == st.members[s][0];
  }

  /** Linking a bright unlabelled pixel j into segment k, after the
      segment's first pixel, keeps the invariant. */
  lemma LinkedKeeps(pix: seq<int>, thresh: int, st: Labels, done: nat, j: nat, k: nat)
    requires Labelling(pix, thresh, st, done) == true
    requires j < |pix| && k < |st.members| && st.mask[j] == -1 && pix[j] > thresh
    requires st.members[k][0] < j
    ensures Labelling(pix, thresh, Linked(st, j, k), done) == true
  {
    var r := Linked(st, j, k);
    assert MaskAbove(pix, thresh, r, done);
    LinkedListed(st, j, k);
    LinkedMembers(st, j, k);
    LinkedDistinct(st, j, k);
    LinkedOrder(st, done, j, k);
    assert NonEmpty(r);
  }

  /** Starting a segment at idx keeps every label listed. */
  lemma CreatedListed(st: Labels, idx: nat)
    requires idx < |st.mask| && InRange(st) && Listed(st)
    ensures InRange(Created(st, idx)) && Listed(Created(st, idx))
  {
    var r := Created(st, idx);
    assert InRange(r);
    forall i | 0 <= i < |r.mask| && r.mask[i] != -1
      ensures i in r.members[r.mask[i]]
    {
      if i != idx {
        assert r.members[r.mask[i]] == st.members[st.mask[i]];
      }
    }
  }

  /** Starting a segment at the unlabelled idx keeps every listed pixel
      carrying the label of its segment. */
  lemma CreatedMembers(st: Labels, idx: nat)
    requires idx < |st.mask| && Members(st) && st.mask[idx] == -1
    ensures Members(Created(st, idx))
  {
    var r := Created(st, idx);
    forall s, t | 0 <= s < |r.members| && 0 <= t < |r.members[s]|
      ensures r.members[s][t] < |r.mask| && r.mask[r.members[s][t]] == s
    {
      if s < |st.members| {
        assert r.members[s] == st.members[s];
        assert st.mask[st.members[s][t]] == s;
      }
    }
  }

  /** Starting a segment at idx, after every earlier segment's first pixel,
      keeps the segments distinct, non-empty and in raster order. */
  lemma CreatedOrder(st: Labels, idx: nat)
    requires idx < |st.mask| && Distinct(st) && NonEmpty(st) && FirstLeast(st) && Raster(st, idx)
    ensures var r := Created(st, idx);
      Distinct(r) && NonEmpty(r) && FirstLeast(r) && Raster(r, idx + 1)
  {
    var r := Created(st, idx);
    assert forall s | 0 <= s < |st.members| :: r.members[s] == st.members[s];
  }

  /** Starting a segment at the bright unlabelled pixel idx, with every pixel
      before idx done, keeps the invariant and completes pixel idx. */
  lemma CreatedKeeps(pix: seq<int>, thresh: int, st: Labels, idx: nat)
    requires Labelling(pix, thresh, st, idx) == true
    requires idx < |pix| && st.mask[idx] == -1 && pix[idx] > thresh
    ensures Labelling(pix, thresh, Created(st, idx), idx + 1) == true
  {
    CreatedListed(st, idx);
    CreatedMembers(st, idx);
    CreatedOrder(st, idx);
  }

  /** Propagating from the labelled pixel idx to a neighbour j at or after
      it keeps the invariant. */
  lemma PropagatedKeeps(pix: seq<int>, thresh: int, st: Labels, done: nat, idx: nat, j: nat)
    requires Labelling(pix, thresh, st, done) == true
    requires idx <= j < |pix| && st.mask[idx] != -1
    ensures Labelling(pix, thresh, Propagated(pix, thresh, st, idx, j), done) == true
  {
    if st.mask[j] == -1 && pix[j] > thresh {
      var k := st.mask[idx];
      assert idx in st.members[k];
      var t :| 0 <= t < |st.members[k]| && st.members[k][t] == idx;
      assert st.members[k][0] <= idx;
      LinkedKeeps(pix, thresh, st, done, j, k);
    }
  }

  /** A neighbour looked at under a condition keeps the invariant. */
  lemma PropagatedWhenKeeps(cond: bool, pix: seq<int>, thresh: int, st: Labels, done: nat, idx: nat, j: nat)
    requires Labelling(pix, thresh, st, done) == true
    requires idx < |pix| && st.mask[idx] != -1 && (cond ==> idx <= j < |pix|)
    ensures Labelling(pix, thresh, PropagatedWhen(cond, pix, thresh, st, idx, j), done) == true
  {
    if cond {
      PropagatedKeeps(pix, thresh, st, done, idx, j);
    }
  }

  /** Giving the bright pixel idx its label completes it. */
  lemma StartedKeeps(pix: seq<int>, thresh: int, st: Labels, idx: nat)
    requires Labelling(pix, thresh, st, idx) == true
    requires idx < |pix| && pix[idx] > thresh
    ensures Labelling(pix, thresh, Started(st, idx), idx + 1) == true
  {
    if st.mask[idx] == -1 {
      CreatedKeeps(pix, thresh, st, idx);
    }
  }

  /** One iteration keeps the invariant and completes one more pixel,
      whichever neighbours after idx it looks at. */
  lemma StepKeeps(pix: seq<int>, thresh: int, st: Labels, idx: nat, a: Around)
    requires Labelling(pix, thresh, st, idx) == true && idx < |pix| && Fits(a, idx, |pix|)
    ensures Labelling(pix, thresh, Step(pix, thresh, st, idx, a), idx + 1) == true
  {
    if pix[idx] > thresh {
      StartedKeeps(pix, thresh, st, idx);
      BrightKeeps(pix, thresh, Started(st, idx), idx, a);
    }
  }

  /** Looking at neighbours after the labelled pixel idx keeps the
      invariant. */
  lemma BrightKeeps(pix: seq<int>, thresh: int, st: Labels, idx: nat, a: Around)
    requires Labelling(pix, thresh, st, idx + 1) == true && idx < |pix| && st.mask[idx] != -1
    requires Fits(a, idx, |pix|)
    ensures Labelling(pix, thresh, Bright(pix, thresh, st, idx, a), idx + 1) == true
  {
    var s1 := PropagatedWhen(a.right.when, pix, thresh, st, idx, a.right.at);
    PropagatedWhenKeeps(a.right.when, pix, thresh, st, idx + 1, idx, a.right.at);
    var s2 := PropagatedWhen(a.belowLeft.when, pix, thresh, s1, idx, a.belowLeft.at);
    PropagatedWhenKeeps(a.belowLeft.when, pix, thresh, s1, idx + 1, idx, a.belowLeft.at);
    var s3 := PropagatedWhen(a.below.when, pix, thresh, s2, idx, a.below.at);
    PropagatedWhenKeeps(a.below.when, pix, thresh, s2, idx + 1, idx, a.below.at);
    PropagatedWhenKeeps(a.belowRight.when, pix, thresh, s3, idx + 1, idx, a.belowRight.at);
  }

  /** The iterations from pixel `from` on keep the invariant and complete
      the image. (The invariant is stated as `== true` in these lemmas so
      that it is carried as one fact instead of being unfolded into its
      conjuncts at every use.) */
  lemma {:induction false} SweepKeeps(pix: seq<int>, thresh: int, nb: seq<Around>, st: Labels, from: nat)
    requires |nb| == |pix| && Fitting(nb) && from <= |pix|
    requires Labelling(pix, thresh, st, from) == true
    ensures Labelling(pix, thresh, Sweep(pix, thresh, nb, st, from), |pix|) == true
    decreases |pix| - from
  {
    if from < |pix| {
      var a := nb[from];
      var next := Step(pix, thresh, st, from, a);
      StepKeeps(pix, thresh, st, from, a);
      SweepKeeps(pix, thresh, nb, next, from + 1);
    }
  }

  /** What the whole pass computes: exactly the pixels brighter than the
      threshold are labelled; every segment is non-empty and lists, without
      repetition, exactly the pixels carrying its label, so every bright
      pixel lies in exactly one segment; a segment's first pixel, the one
      that created it, precedes its others, and segments are numbered in
      raster order of their first pixels. */
  lemma PassLabels(pix: seq<int>, thresh: int, nb: seq<Around>)
    requires |nb| == |pix| && Fitting(nb)
    ensures var st := Pass(pix, thresh, nb);
      && (forall j | 0 <= j < |pix| :: st.mask[j] != -1 <==> pix[j] > thresh)
      && (forall j | 0 <= j < |pix| && st.mask[j] != -1 :: j in st.members[st.mask[j]])
      && (forall s, t | 0 <= s < |st.members| && 0 <= t < |st.members[s]| ::
            st.members[s][t] < |pix| && st.mask[st.members[s][t]] == s)
      && (forall s, t1, t2 | 0 <= s < |st.members| && 0 <= t1 < t2 < |st.members[s]| ::
            st.members[s][t1] != st.members[s][t2])
      && (forall s | 0 <= s < |st.members| :: |st.members[s]| > 0)
      && (forall s, t | 0 <= s < |st.members| && 0 < t < |st.members[s]| ::
            st.members[s][0] < st.members[s][t])
      && (forall s1, s2 | 0 <= s1 < s2 < |st.members| :: st.members[s1][0] < st.members[s2][0])
  {
    SweepKeeps(pix, thresh, nb, Initial(|pix|), 0);
  }

  /** A bright pixel lies in no segment but the one its label names. */
  lemma PassUnique(pix: seq<int>, thresh: int, nb: seq<Around>, j: nat, s: nat)
    requires |nb| == |pix| && Fitting(nb)
    requires s < |Pass(pix, thresh, nb).members| && j in Pass(pix, thresh, nb).members[s]
    ensures j < |pix| && pix[j] > thresh && Pass(pix, thresh, nb).mask[j] == s
  {
    PassLabels(pix, thresh, nb);
    var st := Pass(pix, thresh, nb);
    var t :| 0 <= t < |st.members[s]| && st.members[s][t] == j;
  }

  // ---------------------------------------------------------------------
  // Labels are never changed once given

  /** r is st with more labels given: no label changes, segments are only
      added, and a segment only has pixels appended. */
  ghost predicate Extends(st: Labels, r: Labels) {
    && |r.mask| == |st.mask| && |st.members| <= |r.members|
    && (forall j | 0 <= j < |st.mask| && st.mask[j] != -1 :: r.mask[j] == st.mask[j])
    && (forall s | 0 <= s < |st.members| :: st.members[s] <= r.members[s])
  }

  lemma ExtendsTrans(a: Labels, b: Labels, c: Labels)
    requires Extends(a, b) && Extends(b, c)
    ensures Extends(a, c)
  {
    forall s | 0 <= s < |a.members| ensures a.members[s] <= c.members[s] {
      assert a.members[s] <= b.members[s] <= c.members[s];
    }
  }

  /** A neighbour looked at gets a label only when it has none. */
  lemma PropagatedWhenExtends(cond: bool, pix: seq<int>, thresh: int, st: Labels, idx: nat, j: nat)
    requires |pix| == |st.mask| && idx < |pix| && (cond ==> j < |pix|)
    requires InRange(st) && st.mask[idx] != -1
    ensures Extends(st, PropagatedWhen(cond, pix, thresh, st, idx, j))
  {
    if cond && st.mask[j] == -1 && pix[j] > thresh {
      var k := st.mask[idx];
      var r := Linked(st, j, k);
      assert forall s | 0 <= s < |st.members| :: st.members[s] <= r.members[s];
    }
  }

  /** Giving a bright pixel its label changes no other label. */
  lemma StartedExtends(st: Labels, idx: nat)
    requires idx < |st.mask| && InRange(st)
    ensures Extends(st, Started(st, idx))
  {
    var r := Started(st, idx);
    assert forall s | 0 <= s < |st.members| :: st.members[s] <= r.members[s];
  }

  /** Looking at the neighbours only gives labels. */
  lemma BrightExtends(pix: seq<int>, thresh: int, st: Labels, idx: nat, a: Around)
    requires |pix| == |st.mask| && idx < |pix| && InRange(st) && st.mask[idx] != -1
    requires Fits(a, idx, |pix|)
    ensures Extends(st, Bright(pix, thresh, st, idx, a))
  {
    var s1 := PropagatedWhen(a.right.when, pix, thresh, st, idx, a.right.at);
    PropagatedWhenExtends(a.right.when, pix, thresh, st, idx, a.right.at);
    var s2 := PropagatedWhen(a.belowLeft.when, pix, thresh, s1, idx, a.belowLeft.at);
    PropagatedWhenExtends(a.belowLeft.when, pix, thresh, s1, idx, a.belowLeft.at);
    var s3 := PropagatedWhen(a.below.when, pix, thresh, s2, idx, a.below.at);
    PropagatedWhenExtends(a.below.when, pix, thresh, s2, idx, a.below.at);
    var s4 := PropagatedWhen(a.belowRight.when, pix, thresh, s3, idx, a.belowRight.at);
    PropagatedWhenExtends(a.belowRight.when, pix, thresh, s3, idx, a.belowRight.at);
    ExtendsTrans(st, s1, s2);
    ExtendsTrans(st, s2, s3);
    ExtendsTrans(st, s3, s4);
  }

  /** One iteration only gives labels, never changes one. */
  lemma StepExtends(pix: seq<int>, thresh: int, st: Labels, idx: nat, a: Around)
    requires |pix| == |st.mask| && idx < |pix| && InRange(st) && Fits(a, idx, |pix|)
    ensures Extends(st, Step(pix, thresh, st, idx, a))
  {
    if pix[idx] > thresh {
      var s0 := Started(st, idx);
      StartedExtends(st, idx);
      BrightExtends(pix, thresh, s0, idx, a);
      ExtendsTrans(st, s0, Bright(pix, thresh, s0, idx, a));
    }
  }

  /** A label given at any point of the pass is the label the pixel ends
      with, and a segment's pixels at any point are the first pixels of
      its final list. */
  lemma {:induction false} SweepExtends(pix: seq<int>, thresh: int, nb: seq<Around>, st: Labels, from: nat)
    requires |nb| == |pix| == |st.mask| && Fitting(nb) && from <= |pix| && InRange(st)
    ensures Extends(st, Sweep(pix, thresh, nb, st, from))
    decreases |pix| - from
  {
    if from < |pix| {
      var a := nb[from];
      var next := Step(pix, thresh, st, from, a);
      StepExtends(pix, thresh, st, from, a);
      SweepExtends(pix, thresh, nb, next, from + 1);
      ExtendsTrans(st, next, Sweep(pix, thresh, nb, next, from + 1));
    }
  }

  // ---------------------------------------------------------------------
  // The raster pass as the loop `find_stars` runs

  /** A segment as `Segment::new` makes it, with the pixels at raster
      positions m pushed in order. */
  function Rendered(cols: nat, m: seq<nat>): (s: Segment)
    requires cols > 0
  {
    Segment(seq(|m|, t requires 0 <= t < |m| => Pos(cols, m[t])), Some((0.0, 0.0)), 0)
  }

  /** The segment vector for the members of a labelling. */
  function Render(cols: nat, members: seq<seq<nat>>): (segs: seq<Segment>)
    requires cols > 0 || members == []
  {
    seq(|members|, k requires 0 <= k < |members| => Rendered(cols, members[k]))
  }

  /** The (row, column) pairs of a rendered segment are the pixels at its
      raster positions and lie in the image. */
  lemma RenderedPositions(rows: nat, cols: nat, m: seq<nat>)
    requires forall t | 0 <= t < |m| :: m[t] < rows * cols
    ensures cols > 0 || m == []
    ensures cols > 0 ==> var s := Rendered(cols, m);
      && |s.indices| == |m| && s.centroid == Some((0.0, 0.0)) && s.mass == 0
      && forall t | 0 <= t < |m| ::
           s.indices[t].0 < rows && s.indices[t].1 < cols && Lin(cols, s.indices[t]) == m[t]
  {
    if m != [] {
      LinPos(rows, cols, m[0]);
      forall t | 0 <= t < |m|
        ensures Pos(cols, m[t]).0 < rows && Pos(cols, m[t]).1 < cols && Lin(cols, Pos(cols, m[t])) == m[t]
      {
        LinPos(rows, cols, m[t]);
      }
    }
  }

  /** Pushing a pixel onto segment k pushes its (row, column) onto the
      rendered segment k. */
  lemma RenderLinked(cols: nat, members: seq<seq<nat>>, k: nat, j: nat)
    requires cols > 0 && k < |members|
    ensures var segs := Render(cols, members);
      Render(cols, members[k := members[k] + [j]])
        == segs[k := segs[k].(indices := segs[k].indices + [Pos(cols, j)])]
  {
    var segs := Render(cols, members);
    var m := members[k] + [j];
    assert Rendered(cols, m).indices == segs[k].indices + [Pos(cols, j)];
  }

  /** A new segment holding idx renders as `Segment::new` with idx's
      (row, column) pushed. */
  lemma RenderCreated(cols: nat, members: seq<seq<nat>>, idx: nat)
    requires cols > 0
    ensures Render(cols, members + [[idx]])
         == Render(cols, members) + [NewSegment().(indices := [Pos(cols, idx)])]
  {
    assert Rendered(cols, [idx]).indices == [Pos(cols, idx)];
  }

  /** `mask[j] = mask[idx]` and the push onto segment `mask[idx]` when the
      neighbour j is bright and unlabelled. */
  method Propagate(pix: seq<int>, thresh: int, mask: array<int>, segments: seq<Segment>, cols: nat,
                   idx: nat, j: nat, ghost st: Labels) returns (segs: seq<Segment>, ghost r: Labels)
    requires cols > 0 && |pix| == |st.mask| && idx < |pix| && j < |pix| && InRange(st) && st.mask[idx] != -1
    requires mask[..] == st.mask && segments == Render(cols, st.members)
    modifies mask
    ensures r == Propagated(pix, thresh, st, idx, j)
    ensures mask[..] == r.mask && segs == Render(cols, r.members)
  {
    r := Propagated(pix, thresh, st, idx, j);
    assert mask[j] == st.mask[j] && mask[idx] == st.mask[idx];
    if mask[j] == -1 && pix[j] > thresh {
      var k := mask[idx];
      mask[j] := k;
      segs := segments[k := segments[k].(indices := segments[k].indices + [Pos(cols, j)])];
      RenderLinked(cols, st.members, k, j);
    } else {
      segs := segments;
    }
  }

  /** The neighbours below a bright labelled pixel idx that has a row below
      it: below-left when col > 0, below, and below-right when
      col + 1 < cols. */
  method PropagateBelow(pix: seq<int>, rows: nat, cols: nat, thresh: int, mask: array<int>,
                        segments: seq<Segment>, idx: nat, ghost st: Labels) returns (segs: seq<Segment>, ghost r: Labels)
    requires |pix| == rows * cols == |st.mask| && idx < |pix| && InRange(st) && st.mask[idx] != -1
    requires mask[..] == st.mask && segments == Render(cols, st.members)
    requires idx / cols < rows - 1
    modifies mask
    ensures var a := Neighbours(rows, cols, idx);
      var s2 := PropagatedWhen(a.belowLeft.when, pix, thresh, st, idx, a.belowLeft.at);
      var s3 := PropagatedWhen(a.below.when, pix, thresh, s2, idx, a.below.at);
      r == PropagatedWhen(a.belowRight.when, pix, thresh, s3, idx, a.belowRight.at)
    ensures mask[..] == r.mask && segs == Render(cols, r.members)
  {
    NeighbourBounds(rows, cols, idx);
    ghost var a := Neighbours(rows, cols, idx);
    segs, r := segments, st;
    var currentCol := idx % cols;
    if currentCol > 0 {
      var belowLeft := idx + cols - 1;
      segs, r := Propagate(pix, thresh, mask, segs, cols, idx, belowLeft, r);
    }
    ghost var s2 := r;
    var below := idx + cols;
    segs, r := Propagate(pix, thresh, mask, segs, cols, idx, below, r);
    ghost var s3 := r;
    if currentCol + 1 < cols {
      var belowRight := idx + cols + 1;
      segs, r := Propagate(pix, thresh, mask, segs, cols, idx, belowRight, r);
    }
    assert r == PropagatedWhen(a.belowRight.when, pix, thresh, s3, idx, a.belowRight.at);
  }

  /** One iteration of the labelling loop at pixel idx. */
  method Visit(pix: seq<int>, rows: nat, cols: nat, thresh: int, mask: array<int>,
               segments: seq<Segment>, segmentCount: nat, idx: nat, ghost st: Labels)
    returns (segs: seq<Segment>, count: nat, ghost r: Labels)
    requires |pix| == rows * cols == |st.mask| && idx < |pix| && InRange(st)
    requires mask[..] == st.mask && segments == Render(cols, st.members) && segmentCount == |st.members|
    modifies mask
    ensures r == Step(pix, thresh, st, idx, Neighbours(rows, cols, idx))
    ensures mask[..] == r.mask && segs == Render(cols, r.members) && count == |r.members|
  {
    NeighbourBounds(rows, cols, idx);
    ghost var a := Neighbours(rows, cols, idx);
    segs, count, r := segments, segmentCount, st;
    if pix[idx] > thresh {
      if mask[idx] == -1 {
        segs := segs + [NewSegment().(indices := [Pos(cols, idx)])];
        RenderCreated(cols, st.members, idx);
        mask[idx] := count;
        count := count + 1;
        r := Created(st, idx);
      }
      ghost var s0 := r;
      if idx % cols + 1 < cols {
        var right := idx + 1;
        segs, r := Propagate(pix, thresh, mask, segs, cols, idx, right, r);
      }
      ghost var s1 := r;
      assert s1 == PropagatedWhen(a.right.when, pix, thresh, s0, idx, a.right.at);
      if idx / cols < rows - 1 {
        segs, r := PropagateBelow(pix, rows, cols, thresh, mask, segs, idx, r);
      }
      assert r == Bright(pix, thresh, s0, idx, a);
    }
  }

  /** The labelling loop of `find_stars`: `mask` starts all -1; a bright
      pixel without a label starts a new segment, then passes its label to
      its right, below-left, below and below-right neighbours that exist
      and are bright and unlabelled. It computes the pass over the
      neighbour table of the image. */
  method Label(pix: seq<int>, rows: nat, cols: nat, thresh: int) returns (mask: seq<int>, segments: seq<Segment>)
    requires |pix| == rows * cols
    ensures mask == Pass(pix, thresh, Table(rows, cols)).mask
    ensures cols > 0 || segments == []
    ensures segments == Render(cols, Pass(pix, thresh, Table(rows, cols)).members)
  {
    ghost var nb := Table(rows, cols);
    var m := new int[|pix|](_ => -1);
    segments := [];
    var segmentCount := 0;
    ghost var st := Initial(|pix|);
    assert m[..] == st.mask;
    var idx := 0;
    while idx < |pix|
      invariant idx <= |pix| && |st.mask| == |pix| && InRange(st)
      invariant m[..] == st.mask && segmentCount == |st.members|
      invariant (cols > 0 || st.members == []) && segments == Render(cols, st.members)
      invariant Sweep(pix, thresh, nb, st, idx) == Pass(pix, thresh, nb)
    {
      segments, segmentCount, st := Visit(pix, rows, cols, thresh, m, segments, segmentCount, idx, st);
      idx := idx + 1;
    }
    mask := m[..];
  }

  // ---------------------------------------------------------------------
  // The accumulators the threshold is derived from

  /** The first loop of `find_stars`: the least and greatest pixel, starting
      from `i32::MAX` and `i32::MIN`, and the sum and sum of squares. The
      minimum and maximum are not used further. */
  method PixelAccumulators(pix: seq<int>) returns (mn: int, mx: int, sum: int, sumsq: int)
    ensures sum == FrameStatistics.Sum(pix) && sumsq == FrameStatistics.SumSq(pix)
    ensures mn <= I32_MAX && (forall i | 0 <= i < |pix| :: mn <= pix[i]) && (mn == I32_MAX || mn in pix)
    ensures mx >= I32_MIN && (forall i | 0 <= i < |pix| :: pix[i] <= mx) && (mx == I32_MIN || mx in pix)
  {
    mn, mx, sum, sumsq := FrameStatistics.Accumulate(pix, I32_MAX, I32_MIN);
  }

  // ---------------------------------------------------------------------
  // Dropping small segments

  /** `segments.retain(|x| x.indices.len() >= minsize)`: the segments with
      at least minsize pixels, in their order. */
  function Retained(segs: seq<Segment>, minsize: nat): (r: seq<Segment>)
    ensures |r| <= |segs|
    ensures forall i | 0 <= i < |r| :: |r[i].indices| >= minsize
  {
    if segs == [] then []
    else
      var last := segs[|segs| - 1];
      Retained(segs[..|segs| - 1], minsize) + if |last.indices| >= minsize then [last] else []
  }

  /** Retaining keeps the survivors in their relative order: the survivors
      of a + b are those of a followed by those of b. */
  lemma {:induction false} RetainedConcat(a: seq<Segment>, b: seq<Segment>, minsize: nat)
    ensures Retained(a + b, minsize) == Retained(a, minsize) + Retained(b, minsize)
  {
    if b == [] {
      assert a + b == a;
    } else {
      var b' := b[..|b| - 1];
      assert (a + b)[..|a + b| - 1] == a + b';
      RetainedConcat(a, b', minsize);
    }
  }

  /** A segment survives exactly when it is one of the input segments and
      has at least minsize pixels. */
  lemma {:induction false} RetainedMembers(segs: seq<Segment>, minsize: nat)
    ensures forall x :: x in Retained(segs, minsize) <==> x in segs && |x.indices| >= minsize
  {
    if segs != [] {
      var init, last := segs[..|segs| - 1], segs[|segs| - 1];
      RetainedMembers(init, minsize);
      assert segs == init + [last];
    }
  }

  /** Segments that are large enough are all retained. */
  lemma {:induction false} RetainedAll(segs: seq<Segment>, minsize: nat)
    requires forall i | 0 <= i < |segs| :: |segs[i].indices| >= minsize
    ensures Retained(segs, minsize) == segs
  {
    if segs != [] {
      var init, last := segs[..|segs| - 1], segs[|segs| - 1];
      RetainedAll(init, minsize);
      assert Retained(segs, minsize) == Retained(init, minsize) + [last];
      assert segs == init + [last];
    }
  }

  // ---------------------------------------------------------------------
  // Mass and centroid

  /** Every (row, column) of ps reads a pixel: `row * cols + col` is in
      range. */
  ghost predicate InImage(pix: seq<int>, cols: nat, ps: seq<(nat, nat)>) {
    forall t | 0 <= t < |ps| :: Lin(cols, ps[t]) < |pix|
  }

  /** The pixel values at ps. */
  function Values(pix: seq<int>, cols: nat, ps: seq<(nat, nat)>): (vs: seq<int>)
    requires InImage(pix, cols, ps)
    ensures |vs| == |ps|
  {
    seq(|ps|, t requires 0 <= t < |ps| => pix[Lin(cols, ps[t])])
  }

  /** The pixel values at ps, each times its column. */
  function ColMoments(pix: seq<int>, cols: nat, ps: seq<(nat, nat)>): (ms: seq<int>)
    requires InImage(pix, cols, ps)
    ensures |ms| == |ps|
  {
    seq(|ps|, t requires 0 <= t < |ps| => pix[Lin(cols, ps[t])] * ps[t].1)
  }

  /** The pixel values at ps, each times its row. */
  function RowMoments(pix: seq<int>, cols: nat, ps: seq<(nat, nat)>): (ms: seq<int>)
    requires InImage(pix, cols, ps)
    ensures |ms| == |ps|
  {
    seq(|ps|, t requires 0 <= t < |ps| => pix[Lin(cols, ps[t])] * ps[t].0)
  }

  function Rows(ps: seq<(nat, nat)>): (rs: seq<int>)
    ensures |rs| == |ps|
  {
    seq(|ps|, t requires 0 <= t < |ps| => ps[t].0 as int)
  }

  function Cols(ps: seq<(nat, nat)>): (cs: seq<int>)
    ensures |cs| == |ps|
  {
    seq(|ps|, t requires 0 <= t < |ps| => ps[t].1 as int)
  }

  /** A segment's mass: the sum of its pixel values. */
  function Mass(pix: seq<int>, cols: nat, ps: seq<(nat, nat)>): int
    requires InImage(pix, cols, ps)
  {
    FrameStatistics.Sum(Values(pix, cols, ps))
  }

  /** The centroid (column, row) as the intensity-weighted mean position;
      None where f64 arithmetic would divide by zero (no pixels or a zero
      mass). */
  function Centroid(pix: seq<int>, cols: nat, ps: seq<(nat, nat)>): Option<(real, real)>
    requires InImage(pix, cols, ps)
  {
    var m := Mass(pix, cols, ps);
    if |ps| == 0 || m == 0 then None
    else Some((FrameStatistics.Sum(ColMoments(pix, cols, ps)) as real / m as real,
               FrameStatistics.Sum(RowMoments(pix, cols, ps)) as real / m as real))
  }

  /** The centroid as `find_stars` computes it: the column is the weighted
      mean column, but the row is the plain mean row, whatever the pixel
      values. */
  function CentroidAsWritten(pix: seq<int>, cols: nat, ps: seq<(nat, nat)>): Option<(real, real)>
    requires InImage(pix, cols, ps)
  {
    var m := Mass(pix, cols, ps);
    if |ps| == 0 || m == 0 then None
    else Some((FrameStatistics.Sum(ColMoments(pix, cols, ps)) as real / m as real,
               FrameStatistics.Sum(Rows(ps)) as real / |ps| as real))
  }

  /** The weighted centroid reproduces the weighted moments: mass times each
      coordinate is the sum of value times that coordinate. */
  lemma CentroidMoments(pix: seq<int>, cols: nat, ps: seq<(nat, nat)>)
    requires InImage(pix, cols, ps)
    ensures Centroid(pix, cols, ps).Some? <==> |ps| > 0 && Mass(pix, cols, ps) != 0
    ensures Centroid(pix, cols, ps).Some? ==>
      var c := Centroid(pix, cols, ps).value;
      var m := Mass(pix, cols, ps) as real;
      && c.0 * m == FrameStatistics.Sum(ColMoments(pix, cols, ps)) as real
      && c.1 * m == FrameStatistics.Sum(RowMoments(pix, cols, ps)) as real
  {
  }

  /** The two centroids agree on the column, and on the row exactly where
      the plain mean row equals the weighted mean row. */
  lemma CentroidAsWrittenColumn(pix: seq<int>, cols: nat, ps: seq<(nat, nat)>)
    requires InImage(pix, cols, ps)
    ensures CentroidAsWritten(pix, cols, ps).Some? <==> Centroid(pix, cols, ps).Some?
    ensures Centroid(pix, cols, ps).Some? ==>
      CentroidAsWritten(pix, cols, ps).value.0 == Centroid(pix, cols, ps).value.0
  {
  }

  /** Two pixels of values 1 and 3 in one column: the weighted row is 0.75,
      the written computation gives the mean row 0.5. */
  lemma CentroidRowDiscrepancy()
    ensures InImage([1, 3], 1, [(0, 0), (1, 0)])
    ensures CentroidAsWritten([1, 3], 1, [(0, 0), (1, 0)]) == Some((0.0, 0.5))
    ensures Centroid([1, 3], 1, [(0, 0), (1, 0)]) == Some((0.0, 0.75))
  {
    var pix, ps := [1, 3], [(0, 0), (1, 0)];
    assert Values(pix, 1, ps) == [1, 3];
    assert ColMoments(pix, 1, ps) == [0, 0];
    assert RowMoments(pix, 1, ps) == [0, 3];
    assert Rows(ps) == [0, 1];
    assert FrameStatistics.Sum([1, 3]) == 4;
    assert FrameStatistics.Sum([0, 3]) == 3;
    assert FrameStatistics.Sum([0, 0]) == 0;
    assert FrameStatistics.Sum([0, 1]) == 1;
  }

  /** Sum(s[..i + 1]) extends Sum(s[..i]) by s[i]. */
  lemma SumStep(s: seq<int>, i: nat)
    requires i < |s|
    ensures FrameStatistics.Sum(s[..i + 1]) == FrameStatistics.Sum(s[..i]) + s[i]
  {
    assert s[..i + 1][..i] == s[..i];
  }


  /** The moment about c of a segment with moment sx about 0 and mass m. */
  function Moment(sx: int, m: int, c: real): real {
    sx as real - c * m as real
  }

  /** One more pixel of value v at coordinate x adds v (x - c) to the
      moment about c. */
  lemma MomentStep(sx: int, m: int, v: int, x: int, c: real)
    ensures Moment(sx, m, c) + v as real * (x as real - c) == Moment(sx + v * x, m + v, c)
  {
    assert (v * x) as real == v as real * x as real;
    assert c * (m + v) as real == c * m as real + c * v as real;
  }

  /** Dividing a moment about c by the mass and adding c back gives the
      moment about 0 divided by the mass. */
  lemma Recentred(sx: int, m: int, c: real)
    requires m != 0
    ensures Moment(sx, m, c) / m as real + c == sx as real / m as real
  {
    var mr := m as real;
    assert (sx as real - c * mr) / mr == sx as real / mr - c * mr / mr;
    assert c * mr / mr == c;
  }

  /** The centre row and column of a segment, the plain means of its rows
      and columns (the fold over `segment.indices`); NaN in f64 for an empty
      segment, whose centroid is then None, and 0.0 here. */
  method Centre(ps: seq<(nat, nat)>) returns (crow: real, ccol: real)
    ensures |ps| > 0 ==> crow == FrameStatistics.Sum(Rows(ps)) as real / |ps| as real
    ensures |ps| > 0 ==> ccol == FrameStatistics.Sum(Cols(ps)) as real / |ps| as real
  {
    var srow, scol := 0, 0;
    for t := 0 to |ps|
      invariant srow == FrameStatistics.Sum(Rows(ps)[..t]) && scol == FrameStatistics.Sum(Cols(ps)[..t])
    {
      SumStep(Rows(ps), t);
      SumStep(Cols(ps), t);
      srow, scol := srow + ps[t].0, scol + ps[t].1;
    }
    assert Rows(ps)[..|ps|] == Rows(ps) && Cols(ps)[..|ps|] == Cols(ps);
    if |ps| == 0 {
      crow, ccol := 0.0, 0.0;
    } else {
      crow, ccol := srow as real / |ps| as real, scol as real / |ps| as real;
    }
  }

  /** The loop over a segment's pixels about the centre (ccol, crow) as
      written: sumx gathers value times (col - ccol), sumy value times
      (crow - crow), which is always 0, and summass the values. */
  method DeviationsAsWritten(pix: seq<int>, cols: nat, ps: seq<(nat, nat)>, crow: real, ccol: real)
    returns (sumx: real, sumy: real, summass: int)
    requires InImage(pix, cols, ps)
    ensures summass == Mass(pix, cols, ps)
    ensures sumx == Moment(FrameStatistics.Sum(ColMoments(pix, cols, ps)), summass, ccol)
    ensures sumy == 0.0
  {
    ghost var vs, cm := Values(pix, cols, ps), ColMoments(pix, cols, ps);
    sumx, sumy, summass := 0.0, 0.0, 0;
    ghost var mx := 0;
    for t := 0 to |ps|
      invariant summass == FrameStatistics.Sum(vs[..t]) && mx == FrameStatistics.Sum(cm[..t])
      invariant sumx == Moment(mx, summass, ccol)
      invariant sumy == 0.0
    {
      SumStep(vs, t);
      SumStep(cm, t);
      var (row, col) := ps[t];
      var val := pix[row * cols + col];
      assert val == vs[t] && val * col == cm[t];
      MomentStep(mx, summass, val, col, ccol);
      sumx := sumx + val as real * (col as real - ccol);
      sumy := sumy + val as real * (crow - crow);
      summass := summass + val;
      mx := mx + val * col;
    }
    assert vs[..|ps|] == vs && cm[..|ps|] == cm;
  }

  /** The loop over a segment's pixels about the centre (ccol, crow) with
      the row deviation taken as (row - crow), like the column's. */
  method Deviations(pix: seq<int>, cols: nat, ps: seq<(nat, nat)>, crow: real, ccol: real)
    returns (sumx: real, sumy: real, summass: int)
    requires InImage(pix, cols, ps)
    ensures summass == Mass(pix, cols, ps)
    ensures sumx == Moment(FrameStatistics.Sum(ColMoments(pix, cols, ps)), summass, ccol)
    ensures sumy == Moment(FrameStatistics.Sum(RowMoments(pix, cols, ps)), summass, crow)
  {
    ghost var vs, cm, rm := Values(pix, cols, ps), ColMoments(pix, cols, ps), RowMoments(pix, cols, ps);
    sumx, sumy, summass := 0.0, 0.0, 0;
    ghost var mx, my := 0, 0;
    for t := 0 to |ps|
      invariant summass == FrameStatistics.Sum(vs[..t])
      invariant mx == FrameStatistics.Sum(cm[..t]) && my == FrameStatistics.Sum(rm[..t])
      invariant sumx == Moment(mx, summass, ccol) && sumy == Moment(my, summass, crow)
    {
      SumStep(vs, t);
      SumStep(cm, t);
      SumStep(rm, t);
      var (row, col) := ps[t];
      var val := pix[row * cols + col];
      assert val == vs[t] && val * col == cm[t] && val * row == rm[t];
      MomentStep(mx, summass, val, col, ccol);
      MomentStep(my, summass, val, row, crow);
      sumx := sumx + val as real * (col as real - ccol);
      sumy := sumy + val as real * (row as real - crow);
      summass := summass + val;
      mx, my := mx + val * col, my + val * row;
    }
    assert vs[..|ps|] == vs && cm[..|ps|] == cm && rm[..|ps|] == rm;
  }

  /** The measuring step of `find_stars` for one segment as written: the
      centre, the loop about it and `segment.centroid = (sumx / summass +
      ccol, sumy / summass + crow)`, `segment.mass = summass`. */
  method MeasureAsWritten(pix: seq<int>, cols: nat, seg: Segment) returns (r: Segment)
    requires InImage(pix, cols, seg.indices)
    ensures r == seg.(centroid := CentroidAsWritten(pix, cols, seg.indices), mass := Mass(pix, cols, seg.indices))
  {
    var ps := seg.indices;
    var crow, ccol := Centre(ps);
    var sumx, sumy, summass := DeviationsAsWritten(pix, cols, ps, crow, ccol);
    if |ps| == 0 || summass == 0 {
      r := seg.(centroid := None, mass := summass);
    } else {
      Recentred(FrameStatistics.Sum(ColMoments(pix, cols, ps)), summass, ccol);
      assert sumy / summass as real + crow == crow;
      r := seg.(centroid := Some((sumx / summass as real + ccol, sumy / summass as real + crow)), mass := summass);
    }
  }

  /** The measuring step with the weighted row deviation: mass and the
      intensity-weighted centroid. */
  method Measure(pix: seq<int>, cols: nat, seg: Segment) returns (r: Segment)
    requires InImage(pix, cols, seg.indices)
    ensures r == seg.(centroid := Centroid(pix, cols, seg.indices), mass := Mass(pix, cols, seg.indices))
  {
    var ps := seg.indices;
    var crow, ccol := Centre(ps);
    var sumx, sumy, summass := Deviations(pix, cols, ps, crow, ccol);
    if |ps| == 0 || summass == 0 {
      r := seg.(centroid := None, mass := summass);
    } else {
      Recentred(FrameStatistics.Sum(ColMoments(pix, cols, ps)), summass, ccol);
      Recentred(FrameStatistics.Sum(RowMoments(pix, cols, ps)), summass, crow);
      r := seg.(centroid := Some((sumx / summass as real + ccol, sumy / summass as real + crow)), mass := summass);
    }
  }

  // ---------------------------------------------------------------------
  // Sorting by mass and the whole of find_stars

  /** The order `sort_by` is given: `a.mass.partial_cmp(&b.mass)`, which
      never fails because masses are finite. */
  function ByMass(a: Segment, b: Segment): bool {
    a.mass <= b.mass
  }

  lemma ByMassTotal()
    ensures TotalPreorder(ByMass)
  {
  }

  /** `segments.sort_by(...)` on mass: the segments rearranged into
      non-decreasing mass. */
  method SortByMass(segs: seq<Segment>) returns (sorted: seq<Segment>)
    ensures multiset(sorted) == multiset(segs)
    ensures forall i, j | 0 <= i < j < |sorted| :: sorted[i].mass <= sorted[j].mass
  {
    var a := new Segment[|segs|](i requires 0 <= i < |segs| => segs[i]);
    assert a[..] == segs;
    ByMassTotal();
    SortBy(a, ByMass);
    sorted := a[..];
    assert forall i, j | 0 <= i < j < |sorted| :: ByMass(sorted[i], sorted[j]);
  }

  /** Every segment of segs reads pixels of the image. */
  ghost predicate AllInImage(pix: seq<int>, cols: nat, segs: seq<Segment>) {
    forall k | 0 <= k < |segs| :: InImage(pix, cols, segs[k].indices)
  }

  /** The segments with their mass and centroid filled in. */
  function Measured(pix: seq<int>, cols: nat, segs: seq<Segment>): (r: seq<Segment>)
    requires AllInImage(pix, cols, segs)
  {
    seq(|segs|, k requires 0 <= k < |segs| =>
      segs[k].(centroid := Centroid(pix, cols, segs[k].indices), mass := Mass(pix, cols, segs[k].indices)))
  }

  /** The `iter_mut().for_each(...)` over the segments: each one measured in
      place. */
  method MeasureAll(pix: seq<int>, cols: nat, segs: seq<Segment>) returns (r: seq<Segment>)
    requires AllInImage(pix, cols, segs)
    ensures r == Measured(pix, cols, segs)
  {
    r := segs;
    for k := 0 to |segs|
      invariant |r| == |segs|
      invariant forall i | 0 <= i < k :: r[i] == Measured(pix, cols, segs)[i]
      invariant forall i | k <= i < |segs| :: r[i] == segs[i]
    {
      var m := Measure(pix, cols, r[k]);
      r := r[k := m];
    }
  }

  /** The segments found by the pass read pixels of the image, and so does
      any selection of them. */
  lemma RenderInImage(pix: seq<int>, rows: nat, cols: nat, thresh: int, minsize: nat)
    requires |pix| == rows * cols
    ensures var st := Pass(pix, thresh, Table(rows, cols));
      (cols > 0 || st.members == []) && AllInImage(pix, cols, Retained(Render(cols, st.members), minsize))
  {
    var nb := Table(rows, cols);
    var st := Pass(pix, thresh, nb);
    PassLabels(pix, thresh, nb);
    if st.members == [] {
    } else {
      RenderedPositions(rows, cols, st.members[0]);
      var segs := Render(cols, st.members);
      forall k | 0 <= k < |segs| ensures InImage(pix, cols, segs[k].indices) {
        RenderedPositions(rows, cols, st.members[k]);
      }
      var kept := Retained(segs, minsize);
      RetainedMembers(segs, minsize);
      forall k | 0 <= k < |kept| ensures InImage(pix, cols, kept[k].indices) {
        assert kept[k] in segs;
      }
    }
  }

  /** The options in force: the given ones or the defaults. */
  function Resolved(options: Option<FindStarsOptions>): (o: FindStarsOptions)
    ensures options.Some? ==> o == options.value
    ensures options.None? ==> o == Defaults()
  {
    match options
    case None => Defaults()
    case Some(o) => o
  }

  /** The segments `find_stars` yields before sorting: those of the pass
      with at least minsize pixels, in creation order, measured. */
  function Stars(pix: seq<int>, rows: nat, cols: nat, thresh: int, minsize: nat): seq<Segment>
    requires |pix| == rows * cols
  {
    RenderInImage(pix, rows, cols, thresh, minsize);
    var st := Pass(pix, thresh, Table(rows, cols));
    Measured(pix, cols, Retained(Render(cols, st.members), minsize))
  }

  /** The pixels of segment q of the pass lie in the image and are brighter
      than the threshold. */
  lemma RenderedBright(pix: seq<int>, rows: nat, cols: nat, thresh: int, q: nat)
    requires |pix| == rows * cols && q < |Pass(pix, thresh, Table(rows, cols)).members|
    ensures cols > 0
    ensures var s := Rendered(cols, Pass(pix, thresh, Table(rows, cols)).members[q]);
      forall t | 0 <= t < |s.indices| ::
        && s.indices[t].0 < rows && s.indices[t].1 < cols
        && Lin(cols, s.indices[t]) < |pix| && pix[Lin(cols, s.indices[t])] > thresh
  {
    var nb := Table(rows, cols);
    var m := Pass(pix, thresh, nb).members[q];
    PassLabels(pix, thresh, nb);
    RenderedPositions(rows, cols, m);
    forall t | 0 <= t < |m| ensures pix[m[t]] > thresh {
      PassUnique(pix, thresh, nb, m[t], q);
    }
  }

  /** Star k has at least minsize pixels, and each of them lies in the
      image and is brighter than the threshold. */
  lemma StarBright(pix: seq<int>, rows: nat, cols: nat, thresh: int, minsize: nat, k: nat)
    requires |pix| == rows * cols && k < |Stars(pix, rows, cols, thresh, minsize)|
    ensures var s := Stars(pix, rows, cols, thresh, minsize)[k];
      && |s.indices| >= minsize
      && forall t | 0 <= t < |s.indices| ::
           && s.indices[t].0 < rows && s.indices[t].1 < cols
           && Lin(cols, s.indices[t]) < |pix| && pix[Lin(cols, s.indices[t])] > thresh
  {
    var st := Pass(pix, thresh, Table(rows, cols));
    RenderInImage(pix, rows, cols, thresh, minsize);
    var segs := Render(cols, st.members);
    var kept := Retained(segs, minsize);
    RetainedMembers(segs, minsize);
    assert Stars(pix, rows, cols, thresh, minsize)[k].indices == kept[k].indices;
    assert kept[k] in segs;
    var q :| 0 <= q < |segs| && segs[q] == kept[k];
    RenderedBright(pix, rows, cols, thresh, q);
  }

  /** Every star found has at least minsize pixels, and each of them lies
      in the image and is brighter than the threshold. */
  lemma StarsBright(pix: seq<int>, rows: nat, cols: nat, thresh: int, minsize: nat)
    requires |pix| == rows * cols
    ensures forall s | s in Stars(pix, rows, cols, thresh, minsize) ::
      && |s.indices| >= minsize
      && forall t | 0 <= t < |s.indices| ::
           && s.indices[t].0 < rows && s.indices[t].1 < cols
           && Lin(cols, s.indices[t]) < |pix| && pix[Lin(cols, s.indices[t])] > thresh
  {
    var stars := Stars(pix, rows, cols, thresh, minsize);
    forall s | s in stars
      ensures |s.indices| >= minsize
      ensures forall t | 0 <= t < |s.indices| ::
         && s.indices[t].0 < rows && s.indices[t].1 < cols
         && Lin(cols, s.indices[t]) < |pix| && pix[Lin(cols, s.indices[t])] > thresh
    {
      var k :| 0 <= k < |stars| && stars[k] == s;
      StarBright(pix, rows, cols, thresh, minsize, k);
    }
  }

  /** Without options a star has at least two pixels, each of them in the
      image and brighter than the threshold. */
  lemma DefaultMinimumSize(pix: seq<int>, rows: nat, cols: nat, thresh: int)
    requires |pix| == rows * cols
    ensures forall s | s in Stars(pix, rows, cols, thresh, Resolved(None).minsize) ::
      && |s.indices| >= 2
      && forall t | 0 <= t < |s.indices| ::
           && s.indices[t].0 < rows && s.indices[t].1 < cols
           && Lin(cols, s.indices[t]) < |pix| && pix[Lin(cols, s.indices[t])] > thresh
  {
    StarsBright(pix, rows, cols, thresh, Resolved(None).minsize);
  }

  /** `find_stars` for a given integer threshold: the labelling pass, the
      size filter, the measuring step and the sort by mass. */
  method FindStars(pix: seq<int>, rows: nat, cols: nat, thresh: int, options: Option<FindStarsOptions>)
    returns (stars: seq<Segment>)
    requires |pix| == rows * cols
    ensures multiset(stars) == multiset(Stars(pix, rows, cols, thresh, Resolved(options).minsize))
    ensures forall i, j | 0 <= i < j < |stars| :: stars[i].mass <= stars[j].mass
  {
    var opts := match options case None => Defaults() case Some(o) => o;
    var mn, mx, sum, sumsq := PixelAccumulators(pix);
    var mask, segments := Label(pix, rows, cols, thresh);
    segments := Retained(segments, opts.minsize);
    RenderInImage(pix, rows, cols, thresh, opts.minsize);
    segments := MeasureAll(pix, cols, segments);
    stars := SortByMass(segments);
  }
}
