/**
 * The iteration engine: initialisation of the .dat document, the per-pass data
 * step (id -> position and id -> summed displacement maps, new coordinates written
 * into the node lines) and the stopping rule of the convergence loop.
 *
 * The result database and the solver are not modelled: every read of the
 * database is an input (a sequence of node records), and the loop runs over a
 * given sequence of displacement readings, one per pass.
 */
module Iterate {
  import opened Text
  import opened CadinpBlocks
  import opened DatFile

  /** One record of a database read: a node number and three reals (a position or a displacement). */
  datatype NodeRecord = NodeRecord(nr: int, x: real, y: real, z: real)

  /** A triple of coordinates or displacement components. */
  datatype Vec = Vec(x: real, y: real, z: real)

  const Zero: Vec := Vec(0.0, 0.0, 0.0)

  function Add(a: Vec, b: Vec): Vec {
    Vec(a.x + b.x, a.y + b.y, a.z + b.z)
  }

  function VecOf(r: NodeRecord): Vec {
    Vec(r.x, r.y, r.z)
  }

  /** `dict.get(k, (0.0, 0.0, 0.0))`. */
  function Get(m: map<int, Vec>, k: int): Vec {
    if k in m then m[k] else Zero
  }

  /**
   * `str(float)`: the text written for a coordinate or a load value. Its digits are
   * not modelled; what matters is that it is a non-empty run without whitespace.
   */
  type Formatter = f: real -> string | forall v: real :: IsToken(f(v)) witness (v: real) => "0"

  // ---------------------------------------------------------------------------
  // The two maps of one pass

  /**
   * `unique_positions`: every record with a non-zero id stores its coordinates
   * under its id, a later record overwriting an earlier one.
   */
  function Positions(records: seq<NodeRecord>): map<int, Vec>
    decreases |records|
  {
    if |records| == 0 then map[]
    else
      var r := records[|records| - 1];
      var m := Positions(records[..|records| - 1]);
      if r.nr != 0 then m[r.nr := VecOf(r)] else m
  }

  /**
   * The keys of `unique_positions` in the order a dict yields them: each non-zero
   * id once, where it first occurs.
   */
  function NodeOrder(records: seq<NodeRecord>): (r: seq<int>)
    ensures forall k :: k in r <==> k in Positions(records)
    ensures forall a, b :: 0 <= a < b < |r| ==> r[a] != r[b]
    decreases |records|
  {
    if |records| == 0 then []
    else
      var last := records[|records| - 1];
      var o := NodeOrder(records[..|records| - 1]);
      if last.nr != 0 && last.nr !in o then o + [last.nr] else o
  }

  /** The index of the first record carrying id `k`, or `|records|` when none does. */
  function FirstIndex(records: seq<NodeRecord>, k: int): (r: nat)
    ensures r <= |records|
    ensures r < |records| ==> records[r].nr == k
    ensures forall i :: 0 <= i < r ==> records[i].nr != k
    decreases |records|
  {
    if |records| == 0 then 0
    else if records[0].nr == k then 0
    else
      var r := 1 + FirstIndex(records[1..], k);
      assert forall i :: 1 <= i < r ==> records[i] == records[1..][i - 1];
      r
  }

  /** The two properties of `FirstIndex`'s contract determine it. */
  lemma FirstIndexIs(records: seq<NodeRecord>, k: int, f: nat)
    requires f <= |records| && (f < |records| ==> records[f].nr == k)
    requires forall i :: 0 <= i < f ==> records[i].nr != k
    ensures FirstIndex(records, k) == f
  {
  }

  /** A key already listed before the last record first occurs where it did without that record. */
  lemma FirstIndexOfListed(records: seq<NodeRecord>, x: int)
    requires |records| > 0 && x in NodeOrder(records[..|records| - 1])
    ensures var init := records[..|records| - 1];
            FirstIndex(records, x) == FirstIndex(init, x) < |init|
  {
    var init := records[..|records| - 1];
    PositionsKeys(init, x);
    var i :| 0 <= i < |init| && init[i].nr == x;
    var f := FirstIndex(init, x);
    assert f <= i;
    forall j | 0 <= j < f
      ensures records[j].nr != x
    {
      assert records[j] == init[j];
    }
    assert records[f] == init[f];
    FirstIndexIs(records, x, f);
  }

  /** A non-zero id that no record before the last carries first occurs at the last record. */
  lemma FirstIndexOfNew(records: seq<NodeRecord>)
    requires |records| > 0 && records[|records| - 1].nr != 0
    requires records[|records| - 1].nr !in Positions(records[..|records| - 1])
    ensures FirstIndex(records, records[|records| - 1].nr) == |records| - 1
  {
    var init := records[..|records| - 1];
    var x := records[|records| - 1].nr;
    PositionsKeys(init, x);
    forall j | 0 <= j < |init|
      ensures records[j].nr != x
    {
      assert records[j] == init[j];
    }
    FirstIndexIs(records, x, |init|);
  }

  /** Dict order: a key listed earlier is carried by an earlier first record. */
  lemma {:induction false} NodeOrderFirstSeen(records: seq<NodeRecord>)
    ensures var r := NodeOrder(records);
            forall a, b :: 0 <= a < b < |r| ==> FirstIndex(records, r[a]) < FirstIndex(records, r[b])
    decreases |records|
  {
    if |records| > 0 {
      var init := records[..|records| - 1];
      var last := records[|records| - 1];
      var o := NodeOrder(init);
      var r := NodeOrder(records);
      NodeOrderFirstSeen(init);
      forall a, b | 0 <= a < b < |r|
        ensures FirstIndex(records, r[a]) < FirstIndex(records, r[b])
      {
        FirstIndexOfListed(records, o[a]);
        if b < |o| {
          FirstIndexOfListed(records, o[b]);
        } else {
          FirstIndexOfNew(records);
        }
      }
    }
  }

  /**
   * `unique_displacements`: every record with a non-zero id adds its three
   * components to the entry of its id, which starts at the first such record.
   */
  function Displacements(records: seq<NodeRecord>): map<int, Vec>
    decreases |records|
  {
    if |records| == 0 then map[]
    else
      var r := records[|records| - 1];
      var m := Displacements(records[..|records| - 1]);
      if r.nr == 0 then m
      else if r.nr in m then m[r.nr := Add(m[r.nr], VecOf(r))]
      else m[r.nr := VecOf(r)]
  }

  /** The componentwise sum of the records carrying id `k`, from the front. */
  function SumFor(records: seq<NodeRecord>, k: int): Vec
    decreases |records|
  {
    if |records| == 0 then Zero
    else Add(if records[0].nr == k then VecOf(records[0]) else Zero, SumFor(records[1..], k))
  }

  /** The sum over a sequence is the sum over all but its last record, plus that record's share. */
  lemma {:induction false} SumForLast(records: seq<NodeRecord>, k: int)
    requires |records| > 0
    ensures var r := records[|records| - 1];
            SumFor(records, k) == Add(SumFor(records[..|records| - 1], k), if r.nr == k then VecOf(r) else Zero)
    decreases |records|
  {
    var init := records[..|records| - 1];
    if |records| == 1 {
      assert records[1..] == [] && init == [];
    } else {
      var tail := records[1..];
      assert tail[..|tail| - 1] == init[1..];
      assert tail[|tail| - 1] == records[|records| - 1] && init[0] == records[0];
      SumForLast(tail, k);
      assert SumFor(init, k) == Add(if records[0].nr == k then VecOf(records[0]) else Zero, SumFor(init[1..], k));
    }
  }

  /** Id 0 is never a key; every other id is a key exactly when some record carries it. */
  lemma {:induction false} PositionsKeys(records: seq<NodeRecord>, k: int)
    ensures k in Positions(records) <==> k != 0 && exists i :: 0 <= i < |records| && records[i].nr == k
    decreases |records|
  {
    if |records| > 0 {
      var init := records[..|records| - 1];
      PositionsKeys(init, k);
      if k != 0 && exists i :: 0 <= i < |records| && records[i].nr == k {
        var i :| 0 <= i < |records| && records[i].nr == k;
        if i < |init| {
          assert init[i] == records[i];
        }
      }
      if exists i :: 0 <= i < |init| && init[i].nr == k {
        var i :| 0 <= i < |init| && init[i].nr == k;
        assert records[i] == init[i];
      }
    }
  }

  /** The position stored for an id is that of the last record carrying it. */
  lemma {:induction false} PositionsLastWins(records: seq<NodeRecord>, i: nat)
    requires i < |records| && records[i].nr != 0
    requires forall j :: i < j < |records| ==> records[j].nr != records[i].nr
    ensures records[i].nr in Positions(records) && Positions(records)[records[i].nr] == VecOf(records[i])
    decreases |records|
  {
    if i < |records| - 1 {
      var init := records[..|records| - 1];
      assert init[i] == records[i];
      forall j | i < j < |init|
        ensures init[j].nr != init[i].nr
      {
        assert init[j] == records[j];
      }
      PositionsLastWins(init, i);
    }
  }

  /** Id 0 is never a key; every other id is a key exactly when some record carries it. */
  lemma {:induction false} DisplacementsKeys(records: seq<NodeRecord>, k: int)
    ensures k in Displacements(records) <==> k != 0 && exists i :: 0 <= i < |records| && records[i].nr == k
    decreases |records|
  {
    if |records| > 0 {
      var init := records[..|records| - 1];
      DisplacementsKeys(init, k);
      if k != 0 && exists i :: 0 <= i < |records| && records[i].nr == k {
        var i :| 0 <= i < |records| && records[i].nr == k;
        if i < |init| {
          assert init[i] == records[i];
        }
      }
      if exists i :: 0 <= i < |init| && init[i].nr == k {
        var i :| 0 <= i < |init| && init[i].nr == k;
        assert records[i] == init[i];
      }
    }
  }

  /** The displacement of a non-zero id grows by the last record exactly when that record carries the id. */
  lemma DisplacementsLast(records: seq<NodeRecord>, k: int)
    requires k != 0 && |records| > 0
    ensures var r := records[|records| - 1];
            Get(Displacements(records), k)
            == Add(Get(Displacements(records[..|records| - 1]), k), if r.nr == k then VecOf(r) else Zero)
  {
    var r := records[|records| - 1];
    var d := Displacements(records[..|records| - 1]);
    var e := Displacements(records);
    if r.nr == k && k in d {
      assert e == d[k := Add(d[k], VecOf(r))];
    } else if r.nr == k {
      assert e == d[k := VecOf(r)];
      assert Add(Zero, VecOf(r)) == VecOf(r);
    } else if r.nr == 0 {
      assert e == d;
    } else {
      assert k in e <==> k in d;
      assert k in d ==> e[k] == d[k];
    }
  }

  /**
   * The displacement of a non-zero id, with `(0, 0, 0)` for an id that has no
   * entry, is the sum of the records carrying it.
   */
  lemma {:induction false} DisplacementsAreSums(records: seq<NodeRecord>, k: int)
    requires k != 0
    ensures Get(Displacements(records), k) == SumFor(records, k)
    decreases |records|
  {
    if |records| > 0 {
      DisplacementsAreSums(records[..|records| - 1], k);
      SumForLast(records, k);
      DisplacementsLast(records, k);
    }
  }

  /** The loop filling `unique_positions`, and the order in which its keys go in. */
  method BuildPositions(records: seq<NodeRecord>) returns (positions: map<int, Vec>, order: seq<int>)
    ensures positions == Positions(records) && order == NodeOrder(records)
  {
    positions := map[];
    order := [];
    var i := 0;
    while i < |records|
      invariant 0 <= i <= |records|
      invariant positions == Positions(records[..i]) && order == NodeOrder(records[..i])
    {
      var r := records[i];
      assert records[..i + 1][..i] == records[..i];
      if r.nr != 0 {
        if r.nr !in positions {
          order := order + [r.nr];
        }
        positions := positions[r.nr := VecOf(r)];
      }
      i := i + 1;
    }
    assert records[..|records|] == records;
  }

  /** The loop filling `unique_displacements`. */
  method BuildDisplacements(records: seq<NodeRecord>) returns (displacements: map<int, Vec>)
    ensures displacements == Displacements(records)
  {
    displacements := map[];
    var i := 0;
    while i < |records|
      invariant 0 <= i <= |records|
      invariant displacements == Displacements(records[..i])
    {
      var r := records[i];
      assert records[..i + 1][..i] == records[..i];
      if r.nr != 0 {
        if r.nr in displacements {
          var d := displacements[r.nr];
          displacements := displacements[r.nr := Vec(d.x + r.x, d.y + r.y, d.z + r.z)];
        } else {
          displacements := displacements[r.nr := VecOf(r)];
        }
      }
      i := i + 1;
    }
    assert records[..|records|] == records;
  }

  // ---------------------------------------------------------------------------
  // Writing the new coordinates into the document

  /** The node line of `node` with the coordinates `c` written as text. */
  function CoordLine(line: string, node: int, c: Vec, fmt: Formatter): string {
    ModifyCoordLine(line, node, fmt(c.x), fmt(c.y), fmt(c.z))
  }

  /** `modify_coord` for each node of `nodes` in turn, with the coordinates `coords` gives it. */
  function WriteCoordinates(doc: seq<string>, nodes: seq<int>, coords: map<int, Vec>, fmt: Formatter): (r: seq<string>)
    requires forall n :: n in nodes ==> n in coords
    ensures |r| == |doc|
    decreases |nodes|
  {
    if |nodes| == 0 then doc
    else
      var n := nodes[|nodes| - 1];
      var c := coords[n];
      ModifyCoord(WriteCoordinates(doc, nodes[..|nodes| - 1], coords, fmt), n, fmt(c.x), fmt(c.y), fmt(c.z))
  }

  /** Writing the coordinates of one more node is one more `modify_coord` on the document so far. */
  lemma WriteCoordinatesSnoc(doc: seq<string>, nodes: seq<int>, n: int, coords: map<int, Vec>, fmt: Formatter)
    requires forall m :: m in nodes ==> m in coords
    requires n in coords
    ensures var c := coords[n];
            WriteCoordinates(doc, nodes + [n], coords, fmt)
            == ModifyCoord(WriteCoordinates(doc, nodes, coords, fmt), n, fmt(c.x), fmt(c.y), fmt(c.z))
  {
    assert (nodes + [n])[..|nodes|] == nodes;
  }

  /**
   * Line by line, writing the coordinates of several nodes sets the node line of
   * each listed node to that node's coordinates and leaves every other line as it was.
   */
  lemma {:induction false} WriteCoordinatesLine(doc: seq<string>, nodes: seq<int>, coords: map<int, Vec>,
                                                fmt: Formatter, i: nat)
    requires forall n :: n in nodes ==> n in coords
    requires i < |doc|
    ensures forall n :: n in nodes && IsNodeLineFor(doc[i], n) ==>
              WriteCoordinates(doc, nodes, coords, fmt)[i] == CoordLine(doc[i], n, coords[n], fmt)
    ensures (forall n :: n in nodes ==> !IsNodeLineFor(doc[i], n)) ==>
              WriteCoordinates(doc, nodes, coords, fmt)[i] == doc[i]
    decreases |nodes|
  {
    if |nodes| > 0 {
      var init := nodes[..|nodes| - 1];
      var last := nodes[|nodes| - 1];
      assert forall n :: n in nodes <==> n in init || n == last;
      WriteCoordinatesLine(doc, init, coords, fmt, i);
      var w := WriteCoordinates(doc, init, coords, fmt);
      var c := coords[last];
      var line := w[i];
      assert WriteCoordinates(doc, nodes, coords, fmt)[i] == ModifyCoordLine(line, last, fmt(c.x), fmt(c.y), fmt(c.z));
      forall n | n in nodes && IsNodeLineFor(doc[i], n)
        ensures ModifyCoordLine(line, last, fmt(c.x), fmt(c.y), fmt(c.z)) == CoordLine(doc[i], n, coords[n], fmt)
      {
        var cn := coords[n];
        if n in init {
          assert line == ModifyCoordLine(doc[i], n, fmt(cn.x), fmt(cn.y), fmt(cn.z));
          if n == last {
            ModifyCoordLineTwice(doc[i], n, fmt(cn.x), fmt(cn.y), fmt(cn.z), fmt(c.x), fmt(c.y), fmt(c.z));
          } else {
            ModifyCoordLineReadsBack(doc[i], n, fmt(cn.x), fmt(cn.y), fmt(cn.z));
            if IsNodeLineFor(line, last) {
              NodeLineOwner(line, n, last);
            }
          }
        } else {
          forall m | m in init
            ensures !IsNodeLineFor(doc[i], m)
          {
            if IsNodeLineFor(doc[i], m) {
              NodeLineOwner(doc[i], m, n);
            }
          }
        }
      }
    }
  }

  /** Writing the coordinates of the same nodes twice leaves the second coordinates. */
  lemma WriteCoordinatesTwice(doc: seq<string>, nodes: seq<int>, c1: map<int, Vec>, c2: map<int, Vec>,
                              fmt: Formatter)
    requires forall n :: n in nodes ==> n in c1 && n in c2
    ensures WriteCoordinates(WriteCoordinates(doc, nodes, c1, fmt), nodes, c2, fmt)
         == WriteCoordinates(doc, nodes, c2, fmt)
  {
    var w1 := WriteCoordinates(doc, nodes, c1, fmt);
    var w2 := WriteCoordinates(w1, nodes, c2, fmt);
    var w := WriteCoordinates(doc, nodes, c2, fmt);
    forall i | 0 <= i < |doc|
      ensures w2[i] == w[i]
    {
      WriteCoordinatesLine(doc, nodes, c1, fmt, i);
      WriteCoordinatesLine(w1, nodes, c2, fmt, i);
      WriteCoordinatesLine(doc, nodes, c2, fmt, i);
      if n :| n in nodes && IsNodeLineFor(doc[i], n) {
        var a := c1[n];
        var b := c2[n];
        ModifyCoordLineReadsBack(doc[i], n, fmt(a.x), fmt(a.y), fmt(a.z));
        ModifyCoordLineTwice(doc[i], n, fmt(a.x), fmt(a.y), fmt(a.z), fmt(b.x), fmt(b.y), fmt(b.z));
      }
    }
  }

  // ---------------------------------------------------------------------------
  // One pass and a run of passes

  /** The new coordinates of every node of the position map: its position plus its displacement, if any. */
  function PassCoordinates(positions: map<int, Vec>, displacements: map<int, Vec>): map<int, Vec> {
    map n | n in positions :: Add(positions[n], Get(displacements, n))
  }

  /** The document after one pass that uses the reference positions and one displacement read. */
  function AfterPass(doc: seq<string>, reference: seq<NodeRecord>, read: seq<NodeRecord>, fmt: Formatter): seq<string> {
    WriteCoordinates(doc, NodeOrder(reference), PassCoordinates(Positions(reference), Displacements(read)), fmt)
  }

  /** The document after one pass per read, in order. */
  function AfterPasses(doc: seq<string>, reference: seq<NodeRecord>, readings: seq<seq<NodeRecord>>,
                       fmt: Formatter): seq<string>
    decreases |readings|
  {
    if |readings| == 0 then doc
    else AfterPass(AfterPasses(doc, reference, readings[..|readings| - 1], fmt), reference, readings[|readings| - 1], fmt)
  }

  /** One more read is one more pass on the document the earlier reads left. */
  lemma AfterPassesStep(doc: seq<string>, reference: seq<NodeRecord>, readings: seq<seq<NodeRecord>>, n: nat,
                        fmt: Formatter)
    requires n < |readings|
    ensures AfterPasses(doc, reference, readings[..n + 1], fmt)
            == AfterPass(AfterPasses(doc, reference, readings[..n], fmt), reference, readings[n], fmt)
  {
    assert readings[..n + 1][..n] == readings[..n];
  }

  /**
   * After one pass, the node line of every node of the reference positions holds
   * its reference position plus the sum of its displacement records; no other line changes.
   */
  lemma AfterPassLine(doc: seq<string>, reference: seq<NodeRecord>, read: seq<NodeRecord>, fmt: Formatter,
                      i: nat, n: int)
    requires i < |doc|
    ensures n in Positions(reference) && IsNodeLineFor(doc[i], n) ==>
              AfterPass(doc, reference, read, fmt)[i]
              == CoordLine(doc[i], n, Add(Positions(reference)[n], SumFor(read, n)), fmt)
    ensures (forall m :: m in Positions(reference) ==> !IsNodeLineFor(doc[i], m)) ==>
              AfterPass(doc, reference, read, fmt)[i] == doc[i]
  {
    var positions := Positions(reference);
    WriteCoordinatesLine(doc, NodeOrder(reference), PassCoordinates(positions, Displacements(read)), fmt, i);
    if n in positions {
      PositionsKeys(reference, n);
      DisplacementsAreSums(read, n);
    }
  }

  /** Passes do not build on each other: the document after a run of passes is the one the last read alone gives. */
  lemma {:induction false} AfterPassesLast(doc: seq<string>, reference: seq<NodeRecord>, readings: seq<seq<NodeRecord>>,
                                           fmt: Formatter)
    requires |readings| > 0
    ensures AfterPasses(doc, reference, readings, fmt) == AfterPass(doc, reference, readings[|readings| - 1], fmt)
    decreases |readings|
  {
    var init := readings[..|readings| - 1];
    if |init| > 0 {
      AfterPassesLast(doc, reference, init, fmt);
      assert init[|init| - 1] == readings[|readings| - 2];
      var nodes := NodeOrder(reference);
      var positions := Positions(reference);
      WriteCoordinatesTwice(doc, nodes, PassCoordinates(positions, Displacements(init[|init| - 1])),
                            PassCoordinates(positions, Displacements(readings[|readings| - 1])), fmt);
    }
  }

  // ---------------------------------------------------------------------------
  // The stopping rule

  function Abs(r: real): real {
    if r < 0.0 then -r else r
  }

  /** `max(ux)`: the largest first component of a non-empty read. */
  function MaxUx(records: seq<NodeRecord>): real
    requires |records| > 0
    decreases |records|
  {
    if |records| == 1 then records[0].x
    else
      var m := MaxUx(records[..|records| - 1]);
      var last := records[|records| - 1].x;
      if last > m then last else m
  }

  /** `MaxUx` is one of the `ux` values, and no `ux` value exceeds it. */
  lemma {:induction false} MaxUxIsMaximum(records: seq<NodeRecord>)
    requires |records| > 0
    ensures exists i :: 0 <= i < |records| && records[i].x == MaxUx(records)
    ensures forall i :: 0 <= i < |records| ==> records[i].x <= MaxUx(records)
    decreases |records|
  {
    if |records| == 1 {
      assert records[0].x == MaxUx(records);
    } else {
      var n := |records| - 1;
      var init := records[..n];
      MaxUxIsMaximum(init);
      var m := MaxUx(init);
      assert MaxUx(records) == if records[n].x > m then records[n].x else m;
      if records[n].x > m {
        assert records[n].x == MaxUx(records);
      } else {
        var i :| 0 <= i < |init| && init[i].x == m;
        assert records[i] == init[i];
        assert records[i].x == MaxUx(records);
      }
      forall j | 0 <= j < |records|
        ensures records[j].x <= MaxUx(records)
      {
        if j < n {
          assert records[j] == init[j];
        }
      }
    }
  }

  /** Every read holds at least one record: the database read appends before it looks at its status. */
  predicate NonEmptyReadings(readings: seq<seq<NodeRecord>>) {
    forall k :: 0 <= k < |readings| ==> |readings[k]| > 0
  }

  /** `delta_ux` of pass `k`: against the read before it, or against `start` on the first pass. */
  function Delta(start: seq<NodeRecord>, readings: seq<seq<NodeRecord>>, k: nat): real
    requires |start| > 0 && NonEmptyReadings(readings) && k < |readings|
  {
    var prev := if k == 0 then start else readings[k - 1];
    Abs(MaxUx(readings[k]) - MaxUx(prev))
  }

  /** The first pass at or after `k` whose delta does not exceed `epsilon`, or `|readings|` when there is none. */
  function FirstConverged(start: seq<NodeRecord>, readings: seq<seq<NodeRecord>>, epsilon: real, k: nat): (r: nat)
    requires |start| > 0 && NonEmptyReadings(readings) && k <= |readings|
    ensures k <= r <= |readings|
    ensures r < |readings| ==> Delta(start, readings, r) <= epsilon
    decreases |readings| - k
  {
    if k == |readings| then k
    else if Delta(start, readings, k) <= epsilon then k
    else FirstConverged(start, readings, epsilon, k + 1)
  }

  /** The search for the first converged pass stops at pass `k` exactly when its delta does not exceed `epsilon`. */
  lemma FirstConvergedStep(start: seq<NodeRecord>, readings: seq<seq<NodeRecord>>, epsilon: real, k: nat)
    requires |start| > 0 && NonEmptyReadings(readings) && k < |readings|
    ensures Delta(start, readings, k) > epsilon ==>
              FirstConverged(start, readings, epsilon, k) == FirstConverged(start, readings, epsilon, k + 1)
    ensures Delta(start, readings, k) <= epsilon ==> FirstConverged(start, readings, epsilon, k) == k
  {
  }

  /** Every pass before the first converged one has a delta above `epsilon`. */
  lemma {:induction false} FirstConvergedIsFirst(start: seq<NodeRecord>, readings: seq<seq<NodeRecord>>, epsilon: real,
                                                 k: nat, j: nat)
    requires |start| > 0 && NonEmptyReadings(readings) && k <= |readings|
    requires k <= j < FirstConverged(start, readings, epsilon, k)
    ensures Delta(start, readings, j) > epsilon
    decreases j - k
  {
    if k < j {
      FirstConvergedIsFirst(start, readings, epsilon, k + 1, j);
    }
  }

  /**
   * With epsilon 0.001 and maxima 0.5, 0.1, 0.02, 0.0015, 0.0008 over the passes, the
   * deltas are 0.5, 0.4, 0.08, 0.0185 and 0.0007: the loop stops after the fifth read.
   */
  lemma ConvergesAtFifthReading()
    ensures var start := [NodeRecord(0, 0.0, 0.0, 0.0)];
            var readings := [[NodeRecord(1, 0.5, 0.0, 0.0)], [NodeRecord(1, 0.1, 0.0, 0.0)],
                             [NodeRecord(1, 0.02, 0.0, 0.0)], [NodeRecord(1, 0.0015, 0.0, 0.0)],
                             [NodeRecord(1, 0.0008, 0.0, 0.0)]];
            NonEmptyReadings(readings) && FirstConverged(start, readings, 0.001, 0) == 4
  {
    var start := [NodeRecord(0, 0.0, 0.0, 0.0)];
    var readings := [[NodeRecord(1, 0.5, 0.0, 0.0)], [NodeRecord(1, 0.1, 0.0, 0.0)],
                     [NodeRecord(1, 0.02, 0.0, 0.0)], [NodeRecord(1, 0.0015, 0.0, 0.0)],
                     [NodeRecord(1, 0.0008, 0.0, 0.0)]];
    assert Delta(start, readings, 0) == 0.5;
    assert Delta(start, readings, 1) == 0.4;
    assert Delta(start, readings, 2) == 0.08;
    assert Delta(start, readings, 3) == 0.0185;
    assert Delta(start, readings, 4) == 0.0007;
    assert FirstConverged(start, readings, 0.001, 4) == 4;
    assert FirstConverged(start, readings, 0.001, 2) == FirstConverged(start, readings, 0.001, 3);
  }

  // ---------------------------------------------------------------------------
  // The iteration state

  /** The .dat document with the analysis block, added when the marker is not there yet. */
  function WithAnalysis(doc: seq<string>): (r: seq<string>)
    ensures Check(r, AseMarker)
    ensures Check(doc, AseMarker) ==> r == doc
    ensures |r| >= |doc| && forall j :: 0 <= j < |doc| - 1 ==> r[j] == doc[j]
  {
    if Check(doc, AseMarker) then doc else AddCode(doc)
  }

  /** The document `initialize` leaves: new load block, analysis block, V and H written. */
  function Prepared(doc: seq<string>, v: real, h: real, fmt: Formatter): seq<string> {
    Modified(Modified(WithAnalysis(ReplacedSofiload(doc)), VMarker, fmt(v)), HMarker, fmt(h))
  }

  /** The document steps of `initialize`, with the load values already formatted. */
  method Prepare(doc: seq<string>, v: string, h: string) returns (r: seq<string>)
    ensures r == Modified(Modified(WithAnalysis(ReplacedSofiload(doc)), VMarker, v), HMarker, h)
  {
    var replaced := ReplaceSofiload(doc);
    var analysed := replaced;
    if !Check(replaced, AseMarker) {
      analysed := AddCode(replaced);
    }
    var withV, modified := Modify(analysed, VMarker, v);
    r, modified := Modify(withV, HMarker, h);
  }

  /** The line `modify` sets V in: the V load line. */
  lemma SetV(a: seq<string>, k: nat, v: string)
    requires LoadsAt(a, k)
    ensures Modified(a, VMarker, v) == a[k + 15 := VMarker + " " + v + "\n"]
  {
    assert IsNumber("0") by {
      assert AllDigits("0");
    }
    LoadLineRewrite(VMarker, "0", v);
    ModifiedAt(a, VMarker, v, k + 15);
  }

  /** The line `modify` sets H in once V is set: the H load line. */
  lemma SetH(a: seq<string>, k: nat, v: string, h: string)
    requires IsToken(v) && LoadsAt(a, k)
    ensures var b := a[k + 15 := VMarker + " " + v + "\n"];
            Modified(b, HMarker, h) == b[k + 18 := HMarker + " " + h + "\n"]
  {
    var b := a[k + 15 := VMarker + " " + v + "\n"];
    assert IsNumber("0") by {
      assert AllDigits("0");
    }
    LoadLineRewrite(HMarker, "0", h);
    VLineNotH(v);
    forall j | 0 <= j < k + 18
      ensures !IsModifyTarget(b[j], HMarker)
    {
      if j < k + 15 {
        assert b[j] == a[j];
        assert !IsModifyTarget(a[j], HMarker);
      } else if j == k + 15 {
        assert b[j] == VMarker + " " + v + "\n";
      } else if j == k + 16 {
        assert b[k + 16] == a[k + 16];
      } else {
        assert j == k + 17;
        assert b[k + 17] == a[k + 17];
      }
    }
    ModifiedAt(b, HMarker, h, k + 18);
  }

  /** Setting V, then H, in a document whose load lines are where `LoadsAt` says. */
  lemma LoadsSet(a: seq<string>, k: nat, v: string, h: string)
    requires IsToken(v) && LoadsAt(a, k)
    ensures var p := Modified(Modified(a, VMarker, v), HMarker, h);
            && |p| == |a| && p[..k] == a[..k]
            && p[k + 15] == VMarker + " " + v + "\n"
            && p[k + 18] == HMarker + " " + h + "\n"
  {
    SetV(a, k, v);
    SetH(a, k, v, h);
    var b := a[k + 15 := VMarker + " " + v + "\n"];
    var p := b[k + 18 := HMarker + " " + h + "\n"];
    assert p[..k] == a[..k];
  }

  /**
   * When no line before the first SOFILOAD header sets V or H, `initialize` writes
   * V into the V load line and H into the H load line of the new load block, and
   * keeps the lines before the header.
   */
  lemma PreparedLoads(doc: seq<string>, v: string, h: string)
    requires IsToken(v) && HeaderIndex(doc) < |doc|
    requires forall j :: 0 <= j < HeaderIndex(doc) ==>
               !IsModifyTarget(doc[j], VMarker) && !IsModifyTarget(doc[j], HMarker)
    ensures var p := Modified(Modified(WithAnalysis(ReplacedSofiload(doc)), VMarker, v), HMarker, h);
            var k := HeaderIndex(doc);
            && |p| > k + 18 && p[..k] == doc[..k]
            && p[k + 15] == VMarker + " " + v + "\n"
            && p[k + 18] == HMarker + " " + h + "\n"
  {
    var k := HeaderIndex(doc);
    var r := ReplacedSofiload(doc);
    var a := WithAnalysis(r);
    ReplacedLoadsAt(doc);
    assert a[..k] == doc[..k] by {
      assert forall j :: 0 <= j < k ==> a[j] == r[j];
    }
    assert forall j :: 0 <= j < k + 19 ==> a[j] == r[j];
    LoadsAtKept(r, a, k);
    LoadsSet(a, k, v, h);
  }

  /** The zero list of `initialize`, one record per reference node. */
  function ZeroRead(n: nat): (r: seq<NodeRecord>)
    ensures |r| == n && forall i :: 0 <= i < n ==> r[i] == NodeRecord(0, 0.0, 0.0, 0.0)
  {
    seq(n, _ => NodeRecord(0, 0.0, 0.0, 0.0))
  }

  class Iteration {
    const v: real
    const h: real
    const epsilon: real
    const fmt: Formatter
    /** The .dat document, line by line. */
    var dat: seq<string>
    /** `nr, x, y, z`: the reference positions read once after the first solver run. */
    var reference: seq<NodeRecord>
    /** `nr_u, ux, uy, uz`: the latest displacement read. */
    var latest: seq<NodeRecord>

    constructor(v: real, h: real, epsilon: real, fmt: Formatter, dat: seq<string>)
      ensures this.v == v && this.h == h && this.epsilon == epsilon && this.fmt == fmt
      ensures this.dat == dat && reference == [] && latest == []
    {
      this.v := v;
      this.h := h;
      this.epsilon := epsilon;
      this.fmt := fmt;
      this.dat := dat;
      reference := [];
      latest := [];
    }

    /**
     * `initialize`: prepare the document, keep the positions read from the database
     * as the reference, and start from a zero displacement list of the same length.
     */
    method Initialize(positions: seq<NodeRecord>)
      modifies this
      ensures dat == Prepared(old(dat), v, h, fmt)
      ensures reference == positions && latest == ZeroRead(|positions|)
    {
      dat := Prepare(dat, fmt(v), fmt(h));
      reference := positions;
      latest := ZeroRead(|positions|);
    }

    /** The node update of one pass: each node of the position map, in dict order, gets its new coordinates. */
    method UpdateNodes(order: seq<int>, positions: map<int, Vec>, displacements: map<int, Vec>)
      requires forall n :: n in order ==> n in positions
      modifies this
      ensures dat == WriteCoordinates(old(dat), order, PassCoordinates(positions, displacements), fmt)
      ensures reference == old(reference) && latest == old(latest)
    {
      ghost var coords := PassCoordinates(positions, displacements);
      var i := 0;
      while i < |order|
        invariant 0 <= i <= |order|
        invariant dat == WriteCoordinates(old(dat), order[..i], coords, fmt)
        invariant reference == old(reference) && latest == old(latest)
        decreases |order| - i
      {
        var node := order[i];
        var c := Add(positions[node], Get(displacements, node));
        assert coords[node] == c;
        assert order[..i + 1] == order[..i] + [node];
        WriteCoordinatesSnoc(old(dat), order[..i], node, coords, fmt);
        dat := ModifyCoord(dat, node, fmt(c.x), fmt(c.y), fmt(c.z));
        i := i + 1;
      }
      assert order[..|order|] == order;
    }

    /**
     * One pass of `loop`: read the displacements, write every node's reference
     * position plus its displacement into the document, and measure how far the
     * largest `ux` moved since the read before.
     */
    method Pass(reading: seq<NodeRecord>) returns (delta: real)
      requires |latest| > 0 && |reading| > 0
      modifies this
      ensures reference == old(reference) && latest == reading
      ensures dat == AfterPass(old(dat), reference, reading, fmt)
      ensures delta == Abs(MaxUx(reading) - MaxUx(old(latest)))
    {
      var previous := latest;
      latest := reading;
      var positions, order := BuildPositions(reference);
      var displacements := BuildDisplacements(latest);
      UpdateNodes(order, positions, displacements);
      delta := Abs(MaxUx(latest) - MaxUx(previous));
    }

    /**
     * `loop`: one pass per displacement read until the delta of a pass no longer
     * exceeds `epsilon`, or until the readings run out.
     */
    method Loop(readings: seq<seq<NodeRecord>>) returns (passes: nat, converged: bool)
      requires |latest| > 0 && NonEmptyReadings(readings)
      modifies this
      ensures var first := FirstConverged(old(latest), readings, epsilon, 0);
              && (converged <==> first < |readings|)
              && passes == (if converged then first + 1 else |readings|)
      ensures reference == old(reference)
      ensures latest == if passes == 0 then old(latest) else readings[passes - 1]
      ensures dat == AfterPasses(old(dat), reference, readings[..passes], fmt)
    {
      ghost var start := latest;
      var delta := epsilon + 1.0;
      passes := 0;
      while delta > epsilon && passes < |readings|
        invariant passes <= |readings|
        invariant delta > epsilon ==> FirstConverged(start, readings, epsilon, 0) == FirstConverged(start, readings, epsilon, passes)
        invariant delta <= epsilon ==> passes > 0 && FirstConverged(start, readings, epsilon, 0) == passes - 1
        invariant reference == old(reference)
        invariant latest == if passes == 0 then start else readings[passes - 1]
        invariant dat == AfterPasses(old(dat), reference, readings[..passes], fmt)
        decreases |readings| - passes
      {
        delta := Pass(readings[passes]);
        assert delta == Delta(start, readings, passes);
        FirstConvergedStep(start, readings, epsilon, passes);
        AfterPassesStep(old(dat), reference, readings, passes, fmt);
        passes := passes + 1;
        if delta < epsilon {
          break;
        }
      }
      converged := delta <= epsilon;
    }
  }
}
