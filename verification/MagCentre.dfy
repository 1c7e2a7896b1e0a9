/** The magnetometer centre estimator (common/hardware/memsic/adapter/sensors_algo_ids_h6.c:
    ids_h6_init, magnetic_max_is_valid, magnetic_min_is_valid, ids_h6_calc_magcentre), over the
    real numbers. Readings lie strictly inside (-MAG_MAX, MAG_MAX), as the sensor range does. */
module MagCentre {
  const AVG_BUFF_SIZE := 16
  const MAG_MAX := 4.5
  const MAG_NOI_THRESHOLD := 20.0

  predicate InRange(x: real) {
    -MAG_MAX < x < MAG_MAX
  }

  function Sum(s: seq<real>): real {
    if s == [] then 0.0 else Sum(s[..|s| - 1]) + s[|s| - 1]
  }

  lemma {:induction false} SumCons(x: real, s: seq<real>)
    ensures Sum([x] + s) == x + Sum(s)
    decreases |s|
  {
    if s == [] {
      assert [x] + s == [x] && [x][..0] == [];
    } else {
      assert ([x] + s)[..|s|] == [x] + s[..|s| - 1];
      SumCons(x, s[..|s| - 1]);
    }
  }

  predicate Ascending(s: seq<real>) {
    forall i, j :: 0 <= i < j < |s| ==> s[i] <= s[j]
  }

  predicate Descending(s: seq<real>) {
    forall i, j :: 0 <= i < j < |s| ==> s[i] >= s[j]
  }

  // ---------------------------------------------------------------- sorting

  function InsertAsc(x: real, s: seq<real>): seq<real> {
    if s == [] || x <= s[0] then [x] + s else [s[0]] + InsertAsc(x, s[1..])
  }

  /** What qsort with float_max leaves behind. */
  function SortAsc(s: seq<real>): seq<real> {
    if s == [] then [] else InsertAsc(s[0], SortAsc(s[1..]))
  }

  lemma {:induction false} InsertAscBag(x: real, s: seq<real>)
    ensures multiset(InsertAsc(x, s)) == multiset(s) + multiset{x} && |InsertAsc(x, s)| == |s| + 1
    decreases |s|
  {
    if s == [] || x <= s[0] {
    } else {
      InsertAscBag(x, s[1..]);
      assert s == [s[0]] + s[1..];
    }
  }

  lemma {:induction false} InsertAscSum(x: real, s: seq<real>)
    ensures Sum(InsertAsc(x, s)) == x + Sum(s)
    decreases |s|
  {
    if s == [] || x <= s[0] {
      SumCons(x, s);
    } else {
      InsertAscSum(x, s[1..]);
      assert s == [s[0]] + s[1..];
      SumCons(s[0], s[1..]);
      SumCons(s[0], InsertAsc(x, s[1..]));
    }
  }

  lemma {:induction false} InsertAscSorted(x: real, s: seq<real>)
    requires Ascending(s)
    ensures Ascending(InsertAsc(x, s))
    decreases |s|
  {
    if s == [] || x <= s[0] {
    } else {
      var t := InsertAsc(x, s[1..]);
      InsertAscSorted(x, s[1..]);
      InsertAscBag(x, s[1..]);
      forall j | 0 <= j < |t| ensures s[0] <= t[j] {
        assert t[j] in multiset(t);
        assert t[j] in s[1..] || t[j] == x;
      }
    }
  }

  /** qsort's contract: the result is sorted and a permutation of the input. */
  lemma {:induction false} SortAscSorts(s: seq<real>)
    ensures Ascending(SortAsc(s)) && |SortAsc(s)| == |s| && multiset(SortAsc(s)) == multiset(s)
    ensures Sum(SortAsc(s)) == Sum(s)
    decreases |s|
  {
    if s == [] {
    } else {
      var x, rest := s[0], s[1..];
      SortAscSorts(rest);
      var sorted := SortAsc(rest);
      InsertAscSorted(x, sorted);
      InsertAscBag(x, sorted);
      InsertAscSum(x, sorted);
      assert s == [x] + rest;
      SumCons(x, rest);
    }
  }

  lemma {:induction false} SortedStays(s: seq<real>)
    requires Ascending(s)
    ensures SortAsc(s) == s
    decreases |s|
  {
    if s == [] {
    } else {
      SortedStays(s[1..]);
      if |s| > 1 { assert s[0] <= s[1]; }
      assert s == [s[0]] + s[1..];
    }
  }

  // ---------------------------------------------------------------- mirror images

  /** The minimum buffer is the mirror image of a maximum buffer fed with negated readings. */
  function Neg(s: seq<real>): (r: seq<real>)
    ensures |r| == |s|
  {
    seq(|s|, i requires 0 <= i < |s| => -s[i])
  }

  lemma {:induction false} SumNeg(s: seq<real>)
    ensures Sum(Neg(s)) == -Sum(s)
    decreases |s|
  {
    if s == [] {
    } else {
      SumNeg(s[..|s| - 1]);
      assert Neg(s)[..|s| - 1] == Neg(s[..|s| - 1]);
    }
  }

  // ---------------------------------------------------------------- one buffer

  type Buffer = v: seq<real> | |v| == AVG_BUFF_SIZE witness seq(AVG_BUFF_SIZE, _ => 0.0)

  const LAST := AVG_BUFF_SIZE - 1

  predicate MaxIsNew(v: Buffer, x: real) {
    v[0] == -MAG_MAX || x > v[LAST]
  }

  /** magnetic_max_is_valid; the differences of neighbours add up to the buffer's spread. */
  predicate MaxIsValid(v: Buffer, x: real) {
    || v[0] == -MAG_MAX
    || (x - v[LAST] >= 0.0 && (v[LAST] - v[0]) / (AVG_BUFF_SIZE - 1) as real * MAG_NOI_THRESHOLD - (x - v[LAST]) > 0.0)
  }

  predicate MinIsNew(v: Buffer, x: real) {
    v[0] == MAG_MAX || x < v[LAST]
  }

  predicate MinIsValid(v: Buffer, x: real) {
    || v[0] == MAG_MAX
    || (v[LAST] - x >= 0.0 && (v[0] - v[LAST]) / (AVG_BUFF_SIZE - 1) as real * MAG_NOI_THRESHOLD - (v[LAST] - x) > 0.0)
  }

  /** Replace the first element and sort ascending. */
  function MaxUpdate(v: Buffer, x: real): (r: Buffer) {
    SortAscSorts(v[0 := x]);
    if MaxIsNew(v, x) && MaxIsValid(v, x) then SortAsc(v[0 := x]) else v
  }

  /** Replace the first element and sort descending; qsort with float_min. */
  function SortDesc(s: seq<real>): seq<real> {
    Neg(SortAsc(Neg(s)))
  }

  function MinUpdate(v: Buffer, x: real): (r: Buffer) {
    SortAscSorts(Neg(v[0 := x]));
    if MinIsNew(v, x) && MinIsValid(v, x) then SortDesc(v[0 := x]) else v
  }

  lemma NegNeg(s: seq<real>)
    ensures Neg(Neg(s)) == s
  {
  }

  lemma MinMirrorsMax(v: Buffer, x: real)
    ensures MinUpdate(v, x) == Neg(MaxUpdate(Neg(v), -x))
  {
    var m := Neg(v);
    assert m[0] == -v[0] && m[LAST] == -v[LAST];
    assert MinIsNew(v, x) <==> MaxIsNew(m, -x);
    assert MinIsValid(v, x) <==> MaxIsValid(m, -x);
    NegNeg(v);
    assert Neg(v[0 := x]) == m[0 := -x];
  }

  /** The state of a maximum buffer after `readings`: placeholders first, then past readings, all
      ascending; while it fills up it has taken every reading. */
  ghost predicate MaxState(v: Buffer, readings: seq<real>) {
    && Ascending(v)
    && (forall i :: 0 <= i < AVG_BUFF_SIZE - |readings| ==> v[i] == -MAG_MAX)
    && (forall i :: 0 <= i < AVG_BUFF_SIZE && i >= AVG_BUFF_SIZE - |readings| ==> v[i] in readings)
    && (|readings| <= AVG_BUFF_SIZE ==> Sum(v) == Sum(readings) - (AVG_BUFF_SIZE - |readings|) as real * MAG_MAX)
  }

  lemma {:induction false} InsertSkips(x: real, s: seq<real>, k: nat)
    requires k <= |s| && forall i :: 0 <= i < k ==> s[i] < x
    ensures InsertAsc(x, s) == s[..k] + InsertAsc(x, s[k..])
    decreases k
  {
    if k == 0 {
      assert s[0..] == s;
    } else {
      InsertSkips(x, s[1..], k - 1);
      assert s[1..][k - 1..] == s[k..] && [s[0]] + s[1..][..k - 1] == s[..k];
    }
  }

  lemma InsertBehindPlaceholders(x: real, s: seq<real>, k: nat)
    requires k <= |s| && x > -MAG_MAX && forall i :: 0 <= i < k ==> s[i] == -MAG_MAX
    ensures |InsertAsc(x, s)| == |s| + 1 && forall i :: 0 <= i < k ==> InsertAsc(x, s)[i] == -MAG_MAX
    ensures forall i :: k <= i <= |s| ==> InsertAsc(x, s)[i] == x || InsertAsc(x, s)[i] in s[k..]
  {
    InsertSkips(x, s, k);
    var rest, r := s[k..], InsertAsc(x, s[k..]);
    InsertAscBag(x, rest);
    forall i | k <= i <= |s| ensures InsertAsc(x, s)[i] == x || InsertAsc(x, s)[i] in rest {
      assert InsertAsc(x, s)[i] == r[i - k];
      assert r[i - k] in multiset(r);
    }
  }

  /** An accepted reading takes the place of the first element. */
  lemma AcceptedInserts(v: Buffer, x: real)
    requires Ascending(v) && MaxIsNew(v, x) && MaxIsValid(v, x)
    ensures MaxUpdate(v, x) == InsertAsc(x, v[1..]) && Ascending(MaxUpdate(v, x))
    ensures Sum(MaxUpdate(v, x)) == Sum(v) - v[0] + x
  {
    var tail := v[1..];
    assert v[0 := x] == [x] + tail;
    SortedStays(tail);
    InsertAscSorted(x, tail);
    InsertAscSum(x, tail);
    assert v == [v[0]] + tail;
    SumCons(v[0], tail);
  }

  lemma MaxStepContents(v: Buffer, readings: seq<real>, x: real)
    requires MaxState(v, readings) && InRange(x)
    ensures |InsertAsc(x, v[1..])| == AVG_BUFF_SIZE
    ensures forall i :: 0 <= i < AVG_BUFF_SIZE - |readings| - 1 ==> InsertAsc(x, v[1..])[i] == -MAG_MAX
    ensures forall i :: 0 <= i < AVG_BUFF_SIZE && i >= AVG_BUFF_SIZE - |readings| - 1 ==>
              InsertAsc(x, v[1..])[i] in readings + [x]
  {
    var tail := v[1..];
    var k := if |readings| < AVG_BUFF_SIZE then AVG_BUFF_SIZE - |readings| - 1 else 0;
    InsertAscBag(x, tail);
    InsertBehindPlaceholders(x, tail, k);
    forall y | y in tail[k..] ensures y in readings {
      var j :| 0 <= j < |tail[k..]| && tail[k..][j] == y;
      assert v[1 + k + j] == y;
    }
  }

  /** One more reading keeps the state, and never lowers the sum of a full buffer. */
  lemma MaxStep(v: Buffer, readings: seq<real>, x: real)
    requires MaxState(v, readings) && InRange(x) && forall y :: y in readings ==> InRange(y)
    ensures MaxState(MaxUpdate(v, x), readings + [x])
    ensures |readings| >= AVG_BUFF_SIZE ==> Sum(MaxUpdate(v, x)) >= Sum(v)
  {
    assert (readings + [x])[..|readings|] == readings;
    if |readings| >= AVG_BUFF_SIZE {
      assert v[0] in readings;
    }
    if MaxIsNew(v, x) && MaxIsValid(v, x) {
      AcceptedInserts(v, x);
      MaxStepContents(v, readings, x);
    }
  }

  // ---------------------------------------------------------------- both buffers

  function Filled(c: real): (r: Buffer)
    ensures forall i :: 0 <= i < AVG_BUFF_SIZE ==> r[i] == c
  {
    seq(AVG_BUFF_SIZE, _ => c)
  }

  /** The buffers of one axis after the given readings, from the state ids_h6_init leaves. */
  function MaxBuffer(readings: seq<real>): Buffer {
    if readings == [] then Filled(-MAG_MAX)
    else MaxUpdate(MaxBuffer(readings[..|readings| - 1]), readings[|readings| - 1])
  }

  function MinBuffer(readings: seq<real>): Buffer {
    if readings == [] then Filled(MAG_MAX)
    else MinUpdate(MinBuffer(readings[..|readings| - 1]), readings[|readings| - 1])
  }

  lemma {:induction false} SumConstant(s: seq<real>, c: real)
    requires forall i :: 0 <= i < |s| ==> s[i] == c
    ensures Sum(s) == |s| as real * c
    decreases |s|
  {
    if s == [] {
    } else {
      SumConstant(s[..|s| - 1], c);
    }
  }

  /** Over every run of readings: the maximum buffer is ascending and holds placeholders and past
      readings only, and its sum never drops below that of the first sixteen readings. */
  lemma {:induction false} MaxInvariant(readings: seq<real>)
    requires forall x :: x in readings ==> InRange(x)
    ensures MaxState(MaxBuffer(readings), readings)
    ensures |readings| >= AVG_BUFF_SIZE ==> Sum(MaxBuffer(readings)) >= Sum(readings[..AVG_BUFF_SIZE])
    decreases |readings|
  {
    if readings == [] {
      SumConstant(Filled(-MAG_MAX), -MAG_MAX);
    } else {
      var before, x := readings[..|readings| - 1], readings[|readings| - 1];
      MaxInvariant(before);
      MaxStep(MaxBuffer(before), before, x);
      assert before + [x] == readings;
      if |readings| == AVG_BUFF_SIZE {
        assert readings[..AVG_BUFF_SIZE] == readings;
      } else if |readings| > AVG_BUFF_SIZE {
        assert readings[..AVG_BUFF_SIZE] == before[..AVG_BUFF_SIZE];
      }
    }
  }

  /** The minimum buffer mirrors a maximum buffer over whole runs. */
  lemma {:induction false} MinBufferMirrors(readings: seq<real>)
    ensures MinBuffer(readings) == Neg(MaxBuffer(Neg(readings)))
    decreases |readings|
  {
    if readings == [] {
      assert Neg(readings) == [] && Filled(MAG_MAX) == Neg(Filled(-MAG_MAX));
    } else {
      var before, x := readings[..|readings| - 1], readings[|readings| - 1];
      MinBufferMirrors(before);
      MinMirrorsMax(MinBuffer(before), x);
      NegNeg(MaxBuffer(Neg(before)));
      assert Neg(readings)[..|readings| - 1] == Neg(before) && Neg(readings)[|readings| - 1] == -x;
    }
  }

  lemma MirroredInRange(readings: seq<real>)
    requires forall y :: y in readings ==> InRange(y)
    ensures forall y :: y in Neg(readings) ==> InRange(y)
  {
    forall y | y in Neg(readings) ensures InRange(y) {
      var i :| 0 <= i < |readings| && Neg(readings)[i] == y;
      assert readings[i] in readings;
    }
  }

  lemma MinInvariant(readings: seq<real>)
    requires forall x :: x in readings ==> InRange(x)
    ensures MaxState(Neg(MinBuffer(readings)), Neg(readings))
    ensures |readings| >= AVG_BUFF_SIZE ==> Sum(MinBuffer(readings)) <= Sum(readings[..AVG_BUFF_SIZE])
  {
    MirroredInRange(readings);
    MaxInvariant(Neg(readings));
    MinBufferMirrors(readings);
    NegNeg(MaxBuffer(Neg(readings)));
    SumNeg(MinBuffer(readings));
    if |readings| >= AVG_BUFF_SIZE {
      SumNegFirst(readings);
    }
  }

  lemma SumNegFirst(readings: seq<real>)
    requires |readings| >= AVG_BUFF_SIZE
    ensures Sum(Neg(readings)[..AVG_BUFF_SIZE]) == -Sum(readings[..AVG_BUFF_SIZE])
  {
    SumNeg(readings[..AVG_BUFF_SIZE]);
    assert Neg(readings)[..AVG_BUFF_SIZE] == Neg(readings[..AVG_BUFF_SIZE]);
  }

  /** The joint invariant, over every run of readings: the maximum buffer is ascending, the minimum
      buffer descending, both hold past readings only once sixteen have come in, and from then on
      their sums are in order. */
  lemma JointInvariant(readings: seq<real>)
    requires forall x :: x in readings ==> InRange(x)
    ensures MaxState(MaxBuffer(readings), readings)
    ensures MaxState(Neg(MinBuffer(readings)), Neg(readings))
    ensures |readings| >= AVG_BUFF_SIZE ==> Sum(MaxBuffer(readings)) >= Sum(MinBuffer(readings))
  {
    MaxInvariant(readings);
    MinInvariant(readings);
  }

  // ---------------------------------------------------------------- what the estimator promises

  function Average(v: Buffer): real {
    Sum(v) / AVG_BUFF_SIZE as real
  }

  function Centre(maxV: Buffer, minV: Buffer): real {
    (Average(maxV) + Average(minV)) / 2.0
  }

  lemma {:induction false} SumBounds(s: seq<real>, lo: real, hi: real)
    requires forall i :: 0 <= i < |s| ==> lo <= s[i] <= hi
    ensures |s| as real * lo <= Sum(s) <= |s| as real * hi
    decreases |s|
  {
    if s == [] {
    } else {
      SumBounds(s[..|s| - 1], lo, hi);
    }
  }

  /** The maximum average is below the minimum average until sixteen readings have come in, and
      never again afterwards. */
  lemma AveragesInOrderIff(readings: seq<real>)
    requires forall x :: x in readings ==> InRange(x)
    ensures Average(MaxBuffer(readings)) >= Average(MinBuffer(readings)) <==> |readings| >= AVG_BUFF_SIZE
  {
    JointInvariant(readings);
    SumNeg(MinBuffer(readings));
    SumNeg(readings);
  }

  lemma BuffersHoldReadings(readings: seq<real>)
    requires |readings| >= AVG_BUFF_SIZE && forall x :: x in readings ==> InRange(x)
    ensures forall i :: 0 <= i < AVG_BUFF_SIZE ==> MaxBuffer(readings)[i] in readings && MinBuffer(readings)[i] in readings
    ensures Ascending(MaxBuffer(readings)) && Descending(MinBuffer(readings))
  {
    JointInvariant(readings);
    var n := Neg(MinBuffer(readings));
    forall i | 0 <= i < AVG_BUFF_SIZE ensures MinBuffer(readings)[i] in readings {
      assert n[i] in Neg(readings);
      var j :| 0 <= j < |readings| && Neg(readings)[j] == n[i];
      assert readings[j] == MinBuffer(readings)[i];
    }
    forall i, j | 0 <= i < j < AVG_BUFF_SIZE ensures MinBuffer(readings)[i] >= MinBuffer(readings)[j] {
      assert n[i] <= n[j];
    }
  }

  ghost predicate Within(s: seq<real>, lo: real, hi: real) {
    forall i :: 0 <= i < |s| ==> lo <= s[i] <= hi
  }

  lemma AverageBounds(v: Buffer, lo: real, hi: real)
    requires Within(v, lo, hi)
    ensures lo <= Average(v) <= hi
  {
    SumBounds(v, lo, hi);
    assert |v| as real == 16.0;
  }

  /** After sixteen readings the centre lies between the smallest and the largest reading. */
  lemma CentreBetween(readings: seq<real>, lo: real, hi: real)
    requires |readings| >= AVG_BUFF_SIZE && (forall x :: x in readings ==> InRange(x)) && Within(readings, lo, hi)
    ensures lo <= Centre(MaxBuffer(readings), MinBuffer(readings)) <= hi
  {
    BuffersHoldReadings(readings);
    assert Within(MaxBuffer(readings), lo, hi) && Within(MinBuffer(readings), lo, hi) by {
      forall x | x in readings ensures lo <= x <= hi { }
    }
    AverageBounds(MaxBuffer(readings), lo, hi);
    AverageBounds(MinBuffer(readings), lo, hi);
  }

  /** A full buffer accepts a reading that exceeds its maximum by less than 4/3 of its spread. */
  predicate Acceptable(v: Buffer, x: real) {
    0.0 < x - v[LAST] < 4.0 / 3.0 * (v[LAST] - v[0])
  }

  lemma FullUpdate(v: Buffer, x: real)
    requires Ascending(v) && v[0] != -MAG_MAX
    ensures MaxUpdate(v, x) == if Acceptable(v, x) then v[1..] + [x] else v
  {
    if MaxIsNew(v, x) && MaxIsValid(v, x) {
      AcceptedInserts(v, x);
      InsertAtEnd(x, v[1..]);
    }
  }

  /** Once sixteen readings have come in, an accepted maximum exceeds the old one by less than 4/3
      of the buffer's spread, becomes its new maximum, and the smallest element leaves. */
  lemma AcceptedStep(readings: seq<real>, x: real)
    requires |readings| >= AVG_BUFF_SIZE && InRange(x) && forall y :: y in readings ==> InRange(y)
    ensures MaxBuffer(readings + [x]) ==
            if Acceptable(MaxBuffer(readings), x) then MaxBuffer(readings)[1..] + [x] else MaxBuffer(readings)
  {
    BuffersHoldReadings(readings);
    assert (readings + [x])[..|readings|] == readings;
    assert MaxBuffer(readings)[0] in readings;
    FullUpdate(MaxBuffer(readings), x);
  }

  /** The minimum buffer's acceptance rule. */
  predicate AcceptableMin(v: Buffer, x: real) {
    0.0 < v[LAST] - x < 4.0 / 3.0 * (v[0] - v[LAST])
  }

  lemma MirroredReplacement(m: Buffer, n: Buffer, v: Buffer, w: Buffer, x: real)
    requires v == Neg(m) && w == Neg(n)
    requires n == if Acceptable(m, -x) then m[1..] + [-x] else m
    ensures w == if AcceptableMin(v, x) then v[1..] + [x] else v
  {
    assert v[LAST] == -m[LAST] && v[0] == -m[0];
  }

  lemma MirroredAppend(readings: seq<real>, x: real)
    ensures MinBuffer(readings + [x]) == Neg(MaxBuffer(Neg(readings) + [-x]))
  {
    MinBufferMirrors(readings + [x]);
    assert Neg(readings + [x]) == Neg(readings) + [-x];
  }

  lemma MirroredAcceptedStep(readings: seq<real>, x: real)
    requires |readings| >= AVG_BUFF_SIZE && InRange(x) && forall y :: y in readings ==> InRange(y)
    ensures var m := MaxBuffer(Neg(readings));
      MaxBuffer(Neg(readings) + [-x]) == if Acceptable(m, -x) then m[1..] + [-x] else m
  {
    MirroredInRange(readings);
    AcceptedStep(Neg(readings), -x);
  }

  /** The same for the minimum buffer, downwards. */
  lemma AcceptedMinStep(readings: seq<real>, x: real)
    requires |readings| >= AVG_BUFF_SIZE && InRange(x) && forall y :: y in readings ==> InRange(y)
    ensures MinBuffer(readings + [x]) ==
            if AcceptableMin(MinBuffer(readings), x) then MinBuffer(readings)[1..] + [x] else MinBuffer(readings)
  {
    MirroredAcceptedStep(readings, x);
    MinBufferMirrors(readings);
    MirroredAppend(readings, x);
    MirroredReplacement(MaxBuffer(Neg(readings)), MaxBuffer(Neg(readings) + [-x]),
                        MinBuffer(readings), MinBuffer(readings + [x]), x);
  }

  lemma {:induction false} InsertAtEnd(x: real, s: seq<real>)
    requires forall i :: 0 <= i < |s| ==> s[i] < x
    ensures InsertAsc(x, s) == s + [x]
    decreases |s|
  {
    if s == [] {
    } else {
      InsertAtEnd(x, s[1..]);
    }
  }

  // ---------------------------------------------------------------- where the centre is

  function CentreOf(readings: seq<real>): real {
    Centre(MaxBuffer(readings), MinBuffer(readings))
  }

  lemma AverageNeg(v: Buffer, w: Buffer)
    requires w == Neg(v)
    ensures Average(w) == -Average(v)
  {
    SumNeg(v);
  }

  /** Negating every reading negates the centre. */
  lemma CentreMirrors(readings: seq<real>)
    ensures CentreOf(Neg(readings)) == -CentreOf(readings)
  {
    MinBufferMirrors(readings);
    MinBufferMirrors(Neg(readings));
    NegNeg(readings);
    NegNeg(MaxBuffer(Neg(readings)));
    AverageNeg(MaxBuffer(readings), MinBuffer(Neg(readings)));
    AverageNeg(MinBuffer(readings), MaxBuffer(Neg(readings)));
  }

  /** After exactly sixteen readings the centre is their mean. */
  lemma CentreOfSixteen(readings: seq<real>)
    requires |readings| == AVG_BUFF_SIZE && forall x :: x in readings ==> InRange(x)
    ensures CentreOf(readings) == Sum(readings) / 16.0
  {
    JointInvariant(readings);
    SumNeg(MinBuffer(readings));
    SumNeg(readings);
  }

  lemma ReplacedAverage(v: Buffer, x: real, w: Buffer)
    requires w == v[1..] + [x]
    ensures Average(w) == Average(v) + (x - v[0]) / 16.0
  {
    assert w[..LAST] == v[1..];
    SumCons(v[0], v[1..]);
    assert v == [v[0]] + v[1..];
  }

  lemma SumOfSorted(v: Buffer, lo: real, hi: real)
    requires Within(v, lo, hi)
    ensures 16.0 * lo <= Sum(v) <= 16.0 * hi
  {
    SumBounds(v, lo, hi);
    assert |v| as real == 16.0;
  }

  /** A reading never replaces an element in both full buffers. */
  lemma NotBoth(readings: seq<real>, x: real)
    requires |readings| >= AVG_BUFF_SIZE && forall y :: y in readings ==> InRange(y)
    ensures MinBuffer(readings)[LAST] <= MaxBuffer(readings)[LAST]
    ensures !(Acceptable(MaxBuffer(readings), x) && AcceptableMin(MinBuffer(readings), x))
  {
    JointInvariant(readings);
    BuffersHoldReadings(readings);
    EndsInOrder(MaxBuffer(readings), MinBuffer(readings));
  }

  lemma EndsInOrder(v: Buffer, w: Buffer)
    requires Ascending(v) && Descending(w) && Sum(v) >= Sum(w)
    ensures w[LAST] <= v[LAST]
  {
    SumOfSorted(v, v[0], v[LAST]);
    SumOfSorted(w, w[LAST], w[0]);
  }

  /** A reading accepted by one of the full buffers moves the centre by a thirty-second of its distance
      from the element that leaves; any other leaves the centre where it is. */
  lemma CentreMoves(readings: seq<real>, x: real)
    requires |readings| >= AVG_BUFF_SIZE && InRange(x) && forall y :: y in readings ==> InRange(y)
    ensures var v, w := MaxBuffer(readings), MinBuffer(readings);
      CentreOf(readings + [x]) == CentreOf(readings)
        + if Acceptable(v, x) then (x - v[0]) / 32.0 else if AcceptableMin(w, x) then (x - w[0]) / 32.0 else 0.0
  {
    AcceptedStep(readings, x);
    AcceptedMinStep(readings, x);
    NotBoth(readings, x);
    var v, w := MaxBuffer(readings), MinBuffer(readings);
    if Acceptable(v, x) {
      ReplacedAverage(v, x, MaxBuffer(readings + [x]));
    } else if AcceptableMin(w, x) {
      ReplacedAverage(w, x, MinBuffer(readings + [x]));
    }
  }

  // ---------------------------------------------------------------- when the buffers freeze

  function Placeholders(n: nat): seq<real> {
    seq(n, _ => -MAG_MAX)
  }

  lemma ReplaceBag(v: Buffer, x: real, readings: seq<real>, k: nat)
    requires multiset(v) == multiset(readings) + multiset(Placeholders(k + 1)) && v[0] == -MAG_MAX
    ensures multiset(v[0 := x]) == multiset(readings + [x]) + multiset(Placeholders(k))
  {
    assert Placeholders(k + 1) == Placeholders(k) + [-MAG_MAX];
    assert multiset(v[0 := x]) == multiset(v) - multiset{-MAG_MAX} + multiset{x};
  }

  lemma FillingAccepts(readings: seq<real>, x: real)
    requires |readings| < AVG_BUFF_SIZE && forall y :: y in readings ==> InRange(y)
    ensures MaxBuffer(readings)[0] == -MAG_MAX
    ensures multiset(MaxBuffer(readings + [x])) == multiset(MaxBuffer(readings)[0 := x])
  {
    MaxInvariant(readings);
    assert (readings + [x])[..|readings|] == readings;
    SortAscSorts(MaxBuffer(readings)[0 := x]);
  }

  /** While it fills up, the maximum buffer holds every reading, as often as it came in. */
  lemma {:induction false} FillingKeepsAll(readings: seq<real>)
    requires |readings| <= AVG_BUFF_SIZE && forall y :: y in readings ==> InRange(y)
    ensures multiset(MaxBuffer(readings)) == multiset(readings) + multiset(Placeholders(AVG_BUFF_SIZE - |readings|))
    decreases |readings|
  {
    if readings == [] {
      assert Filled(-MAG_MAX) == Placeholders(AVG_BUFF_SIZE);
    } else {
      var before, x := readings[..|readings| - 1], readings[|readings| - 1];
      assert before + [x] == readings;
      FillingKeepsAll(before);
      FillingAccepts(before, x);
      ReplaceBag(MaxBuffer(before), x, before, AVG_BUFF_SIZE - |readings|);
    }
  }

  predicate AllEqual(s: seq<real>) {
    forall i :: 0 <= i < |s| ==> s[i] == s[0]
  }

  lemma FullBagIff(v: Buffer, readings: seq<real>)
    requires Ascending(v) && |readings| == AVG_BUFF_SIZE && multiset(v) == multiset(readings)
    ensures v[0] == v[LAST] <==> AllEqual(readings)
  {
    forall y ensures y in v <==> y in readings {
      assert y in v <==> y in multiset(v);
      assert y in readings <==> y in multiset(readings);
    }
    if v[0] == v[LAST] {
      forall i | 0 <= i < |readings| ensures readings[i] == v[0] {
        assert readings[i] in readings && readings[i] in v;
        var k :| 0 <= k < |v| && v[k] == readings[i];
        assert v[0] <= v[k] <= v[LAST];
      }
    }
    if AllEqual(readings) {
      assert v[0] in readings && v[LAST] in readings;
    }
  }

  /** A full maximum buffer has no spread exactly if the first sixteen readings were all equal. */
  lemma {:induction false} NoSpreadIff(readings: seq<real>)
    requires |readings| >= AVG_BUFF_SIZE && forall y :: y in readings ==> InRange(y)
    ensures MaxBuffer(readings)[0] == MaxBuffer(readings)[LAST] <==> AllEqual(readings[..AVG_BUFF_SIZE])
    decreases |readings|
  {
    if |readings| == AVG_BUFF_SIZE {
      FillingKeepsAll(readings);
      MaxInvariant(readings);
      assert readings[..AVG_BUFF_SIZE] == readings && Placeholders(0) == [];
      FullBagIff(MaxBuffer(readings), readings);
    } else {
      var before, x := readings[..|readings| - 1], readings[|readings| - 1];
      NoSpreadIff(before);
      BuffersHoldReadings(before);
      AcceptedStep(before, x);
      assert before + [x] == readings && before[..AVG_BUFF_SIZE] == readings[..AVG_BUFF_SIZE];
    }
  }

  /** No further readings, as long as they are in range, ever change the maximum buffer. */
  ghost predicate MaxFrozen(readings: seq<real>) {
    forall later :: (forall y :: y in later ==> InRange(y)) ==> MaxBuffer(readings + later) == MaxBuffer(readings)
  }

  ghost predicate MinFrozen(readings: seq<real>) {
    forall later :: (forall y :: y in later ==> InRange(y)) ==> MinBuffer(readings + later) == MinBuffer(readings)
  }

  /** After sixteen equal first readings the maximum buffer never changes again. */
  lemma {:induction false} EqualStartFreezes(readings: seq<real>, later: seq<real>)
    requires |readings| >= AVG_BUFF_SIZE && AllEqual(readings[..AVG_BUFF_SIZE])
    requires (forall y :: y in readings ==> InRange(y)) && forall y :: y in later ==> InRange(y)
    ensures MaxBuffer(readings + later) == MaxBuffer(readings)
    decreases |later|
  {
    if later == [] {
      assert readings + later == readings;
    } else {
      var before, x := later[..|later| - 1], later[|later| - 1];
      EqualStartFreezes(readings, before);
      var all := readings + before;
      assert all + [x] == readings + later && all[..AVG_BUFF_SIZE] == readings[..AVG_BUFF_SIZE];
      NoSpreadIff(all);
      AcceptedStep(all, x);
    }
  }

  /** A buffer with spread accepts some reading in range. */
  lemma SpreadAccepts(v: Buffer) returns (x: real)
    requires v[0] < v[LAST] && InRange(v[LAST])
    ensures InRange(x) && Acceptable(v, x)
  {
    var room, spread := MAG_MAX - v[LAST], v[LAST] - v[0];
    x := v[LAST] + (if room < spread then room else spread) / 2.0;
  }

  /** Exact condition: once full, the maximum buffer is frozen for good if and only if the first
      sixteen readings were all equal. */
  lemma MaxFrozenIff(readings: seq<real>)
    requires |readings| >= AVG_BUFF_SIZE && forall y :: y in readings ==> InRange(y)
    ensures MaxFrozen(readings) <==> AllEqual(readings[..AVG_BUFF_SIZE])
  {
    if AllEqual(readings[..AVG_BUFF_SIZE]) {
      forall later | forall y :: y in later ==> InRange(y)
        ensures MaxBuffer(readings + later) == MaxBuffer(readings)
      {
        EqualStartFreezes(readings, later);
      }
    } else {
      var v := MaxBuffer(readings);
      NoSpreadIff(readings);
      BuffersHoldReadings(readings);
      assert v[LAST] in readings;
      var x := SpreadAccepts(v);
      AcceptedStep(readings, x);
      assert (v[1..] + [x])[LAST] == x;
      assert MaxBuffer(readings + [x]) != v;
    }
  }

  lemma MirroredAll(readings: seq<real>, later: seq<real>)
    ensures MinBuffer(readings + later) == Neg(MaxBuffer(Neg(readings) + Neg(later)))
  {
    MinBufferMirrors(readings + later);
    assert Neg(readings + later) == Neg(readings) + Neg(later);
  }

  lemma MirroredEqual(readings: seq<real>)
    requires |readings| >= AVG_BUFF_SIZE
    ensures AllEqual(Neg(readings)[..AVG_BUFF_SIZE]) <==> AllEqual(readings[..AVG_BUFF_SIZE])
  {
    var r, n := readings[..AVG_BUFF_SIZE], Neg(readings)[..AVG_BUFF_SIZE];
    assert forall i :: 0 <= i < AVG_BUFF_SIZE ==> n[i] == -r[i];
  }

  lemma MirroredFrozen(readings: seq<real>)
    ensures MinFrozen(readings) <==> MaxFrozen(Neg(readings))
  {
    MinBufferMirrors(readings);
    NegNeg(readings);
    if MinFrozen(readings) {
      forall later | forall y :: y in later ==> InRange(y)
        ensures MaxBuffer(Neg(readings) + later) == MaxBuffer(Neg(readings))
      {
        MirroredInRange(later);
        NegNeg(later);
        MirroredAll(readings, Neg(later));
        NegNeg(MaxBuffer(Neg(readings) + later));
        NegNeg(MaxBuffer(Neg(readings)));
      }
    }
    if MaxFrozen(Neg(readings)) {
      forall later | forall y :: y in later ==> InRange(y)
        ensures MinBuffer(readings + later) == MinBuffer(readings)
      {
        MirroredInRange(later);
        MirroredAll(readings, later);
      }
    }
  }

  /** The same for the minimum buffer, under the same condition. */
  lemma MinFrozenIff(readings: seq<real>)
    requires |readings| >= AVG_BUFF_SIZE && forall y :: y in readings ==> InRange(y)
    ensures MinFrozen(readings) <==> AllEqual(readings[..AVG_BUFF_SIZE])
  {
    MirroredInRange(readings);
    MaxFrozenIff(Neg(readings));
    MirroredEqual(readings);
    MirroredFrozen(readings);
  }

  // ---------------------------------------------------------------- the code

  /** The buffers of one coordinate. */
  class Axis {
    const maxV: array<real>
    const minV: array<real>
    ghost var readings: seq<real>

    ghost predicate Valid()
      reads this, maxV, minV
    {
      && maxV.Length == AVG_BUFF_SIZE == minV.Length && maxV != minV
      && maxV[..] == MaxBuffer(readings) && minV[..] == MinBuffer(readings)
      && forall x :: x in readings ==> InRange(x)
    }

    /** The loop in ids_h6_init. */
    constructor ()
      ensures Valid() && readings == [] && fresh(maxV) && fresh(minV)
    {
      maxV := new real[AVG_BUFF_SIZE](_ => -MAG_MAX);
      minV := new real[AVG_BUFF_SIZE](_ => MAG_MAX);
      readings := [];
      new;
      assert maxV[..] == Filled(-MAG_MAX) && minV[..] == Filled(MAG_MAX);
    }

    /** One coordinate of ids_h6_calc_magcentre: the insertions, then the average. */
    method Update(x: real) returns (centre: real)
      requires Valid() && InRange(x)
      modifies this`readings, maxV, minV
      ensures Valid() && readings == old(readings) + [x]
      ensures centre == Centre(MaxBuffer(readings), MinBuffer(readings))
      ensures |readings| >= AVG_BUFF_SIZE ==>
                forall lo, hi :: Within(readings, lo, hi) ==> lo <= centre <= hi
      ensures |readings| == AVG_BUFF_SIZE ==> centre == Sum(readings) / 16.0
    {
      OfferMax(maxV, x);
      OfferMin(minV, x);
      assert (readings + [x])[..|readings|] == readings;
      readings := readings + [x];
      var a := SumArray(maxV);
      var b := SumArray(minV);
      centre := (a / AVG_BUFF_SIZE as real + b / AVG_BUFF_SIZE as real) / 2.0;
      if |readings| == AVG_BUFF_SIZE { CentreOfSixteen(readings); }
      forall lo, hi | |readings| >= AVG_BUFF_SIZE && Within(readings, lo, hi)
        ensures lo <= centre <= hi
      {
        CentreBetween(readings, lo, hi);
      }
    }
  }

  /** ids_h6_calc_magcentre on its three coordinates. */
  method CalcMagCentre(x: Axis, y: Axis, z: Axis, mag: (real, real, real)) returns (centre: (real, real, real))
    requires x.Valid() && y.Valid() && z.Valid() && InRange(mag.0) && InRange(mag.1) && InRange(mag.2)
    requires {x.maxV, x.minV} !! {y.maxV, y.minV} !! {z.maxV, z.minV} && x != y && y != z && x != z
    modifies x, x.maxV, x.minV, y, y.maxV, y.minV, z, z.maxV, z.minV
    ensures x.Valid() && y.Valid() && z.Valid()
    ensures x.readings == old(x.readings) + [mag.0] && y.readings == old(y.readings) + [mag.1] && z.readings == old(z.readings) + [mag.2]
    ensures centre.0 == Centre(MaxBuffer(x.readings), MinBuffer(x.readings))
    ensures centre.1 == Centre(MaxBuffer(y.readings), MinBuffer(y.readings))
    ensures centre.2 == Centre(MaxBuffer(z.readings), MinBuffer(z.readings))
  {
    var cx := x.Update(mag.0);
    var cy := y.Update(mag.1);
    var cz := z.Update(mag.2);
    centre := (cx, cy, cz);
  }

  /** The summing loop. */
  method SumArray(v: array<real>) returns (sum: real)
    ensures sum == Sum(v[..])
  {
    sum := 0.0;
    var i := 0;
    while i < v.Length
      invariant 0 <= i <= v.Length && sum == Sum(v[..i])
    {
      assert v[..i + 1][..i] == v[..i];
      sum := sum + v[i];
      i := i + 1;
    }
    assert v[..i] == v[..];
  }

  /** qsort with float_max */
  method QSortAscending(v: array<real>)
    modifies v
    ensures v[..] == SortAsc(old(v[..]))
  {
    var sorted := SortAsc(v[..]);
    SortAscSorts(v[..]);
    forall i | 0 <= i < v.Length { v[i] := sorted[i]; }
  }

  /** qsort with float_min */
  method QSortDescending(v: array<real>)
    modifies v
    ensures v[..] == SortDesc(old(v[..]))
  {
    var sorted := SortDesc(v[..]);
    SortAscSorts(Neg(v[..]));
    forall i | 0 <= i < v.Length { v[i] := sorted[i]; }
  }

  /** magnetic_max_is_valid */
  method MagneticMaxIsValid(v: array<real>, newMax: real) returns (valid: bool)
    requires v.Length == AVG_BUFF_SIZE
    ensures valid == MaxIsValid(v[..], newMax)
  {
    if v[0] == -MAG_MAX {
      return true;
    }
    var delt := newMax - v[LAST];
    if delt < 0.0 {
      return false;
    }
    var diff := 0.0;
    var i := 0;
    while i < AVG_BUFF_SIZE - 1
      invariant 0 <= i <= AVG_BUFF_SIZE - 1 && diff == v[LAST] - v[LAST - i]
    {
      diff := diff + (v[(AVG_BUFF_SIZE - i) - 1] - v[(AVG_BUFF_SIZE - i) - 2]);
      i := i + 1;
    }
    diff := diff / (AVG_BUFF_SIZE - 1) as real;
    valid := diff * MAG_NOI_THRESHOLD - delt > 0.0;
  }

  /** magnetic_min_is_valid */
  method MagneticMinIsValid(v: array<real>, newMin: real) returns (valid: bool)
    requires v.Length == AVG_BUFF_SIZE
    ensures valid == MinIsValid(v[..], newMin)
  {
    if v[0] == MAG_MAX {
      return true;
    }
    var delt := v[LAST] - newMin;
    if delt < 0.0 {
      return false;
    }
    var diff := 0.0;
    var i := 0;
    while i < AVG_BUFF_SIZE - 1
      invariant 0 <= i <= AVG_BUFF_SIZE - 1 && diff == v[0] - v[i]
    {
      diff := diff + (v[i] - v[i + 1]);
      i := i + 1;
    }
    diff := diff / (AVG_BUFF_SIZE - 1) as real;
    valid := diff * MAG_NOI_THRESHOLD - delt > 0.0;
  }

  /** The maximum half of ids_h6_calc_magcentre for one coordinate. */
  method OfferMax(v: array<real>, x: real)
    requires v.Length == AVG_BUFF_SIZE
    modifies v
    ensures v[..] == MaxUpdate(old(v[..]), x)
  {
    if v[0] == -MAG_MAX || x > v[LAST] {
      var valid := MagneticMaxIsValid(v, x);
      if valid {
        v[0] := x;
        assert v[..] == old(v[..])[0 := x];
        QSortAscending(v);
      }
    }
  }

  /** The minimum half. */
  method OfferMin(v: array<real>, x: real)
    requires v.Length == AVG_BUFF_SIZE
    modifies v
    ensures v[..] == MinUpdate(old(v[..]), x)
  {
    if v[0] == MAG_MAX || x < v[LAST] {
      var valid := MagneticMinIsValid(v, x);
      if valid {
        v[0] := x;
        assert v[..] == old(v[..])[0 := x];
        QSortDescending(v);
      }
    }
  }
}
