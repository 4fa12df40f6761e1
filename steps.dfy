/**
 * Technique step records (models/technique_step.py) and the elimination
 * maps the techniques build for them.
 *
 * An elimination map is the dict the techniques fill with
 * `elimination_map.setdefault(str(v), []).append(cell)` and then hand out
 * as a list of one-key dicts `[{k: v} for k, v in elimination_map.items()]`.
 * Here it is a sequence of entries in the order the keys were first
 * inserted; the string key str(v) is kept as the number v.
 */
module Steps {
  import opened Wrappers
  import opened Geometry
  import opened Cells

  /** One `{str(v): [cells, ...]}` entry. */
  datatype ElimEntry = ElimEntry(key: int, cells: seq<Pos>)

  /** A dict from values to cell lists, in insertion order of its keys. */
  type ElimMap = seq<ElimEntry>

  /** The keys in insertion order. */
  function KeyList(m: ElimMap): (ks: seq<int>)
    ensures |ks| == |m| && forall i :: 0 <= i < |m| ==> ks[i] == m[i].key
  {
    seq(|m|, i requires 0 <= i < |m| => m[i].key)
  }

  /** A dict never holds a key twice. */
  predicate KeysDistinct(m: ElimMap) {
    forall a, b :: 0 <= a < b < |m| ==> m[a].key != m[b].key
  }

  /** d.get(str(v), []): the cells listed under v. */
  function Lookup(m: ElimMap, v: int): seq<Pos>
    decreases |m|
  {
    if m == [] then [] else if m[0].key == v then m[0].cells else Lookup(m[1..], v)
  }

  /** Every (value, cell) pair the map records. */
  function Pairs(m: ElimMap): set<(int, Pos)>
    decreases |m|
  {
    if m == [] then {} else (set q | q in m[0].cells :: (m[0].key, q)) + Pairs(m[1..])
  }

  /** elimination_map.setdefault(str(v), []).append(p) */
  function Record(m: ElimMap, v: int, p: Pos): (r: ElimMap)
    decreases |m|
  {
    if m == [] then [ElimEntry(v, [p])]
    else if m[0].key == v then [ElimEntry(v, m[0].cells + [p])] + m[1..]
    else [m[0]] + Record(m[1..], v, p)
  }

  /** The tail of a dict is a dict. */
  lemma KeysDistinctTail(m: ElimMap)
    requires m != [] && KeysDistinct(m)
    ensures KeysDistinct(m[1..]) && m[0].key !in KeyList(m[1..])
  {
    assert forall a :: 0 <= a < |m| - 1 ==> m[1..][a] == m[a + 1];
  }

  /** Record keeps the key order and adds a new key at the end. */
  lemma {:induction false} RecordKeys(m: ElimMap, v: int, p: Pos)
    ensures KeyList(Record(m, v, p)) == if v in KeyList(m) then KeyList(m) else KeyList(m) + [v]
    decreases |m|
  {
    var r := Record(m, v, p);
    if m == [] {
      assert KeyList(r) == [v];
    } else if m[0].key == v {
      assert |r| == |m| && r[0].key == v;
      forall a | 1 <= a < |m| ensures r[a].key == m[a].key {
        assert r[a] == m[a];
      }
      assert KeyList(r) == KeyList(m);
      assert KeyList(m)[0] == v;
    } else {
      var rt := Record(m[1..], v, p);
      RecordKeys(m[1..], v, p);
      assert r == [m[0]] + rt;
      KeyListCons(m[0], m[1..]);
      KeyListCons(m[0], rt);
      assert [m[0]] + m[1..] == m;
    }
  }

  lemma KeyListCons(e: ElimEntry, m: ElimMap)
    ensures KeyList([e] + m) == [e.key] + KeyList(m)
  {
  }

  /** Record keeps a dict a dict. */
  lemma {:induction false} RecordDistinct(m: ElimMap, v: int, p: Pos)
    requires KeysDistinct(m)
    ensures KeysDistinct(Record(m, v, p))
    decreases |m|
  {
    var r := Record(m, v, p);
    if m != [] {
      if m[0].key == v {
        assert forall a :: 0 <= a < |r| ==> r[a].key == m[a].key;
      } else {
        KeysDistinctTail(m);
        RecordDistinct(m[1..], v, p);
        RecordKeys(m[1..], v, p);
        var rt := Record(m[1..], v, p);
        assert r == [m[0]] + rt;
        ConsDistinct(m[0], rt);
      }
    }
  }

  /** An entry whose key the dict does not hold, put in front, keeps it a dict. */
  lemma ConsDistinct(e: ElimEntry, rt: ElimMap)
    requires KeysDistinct(rt) && e.key !in KeyList(rt)
    ensures KeysDistinct([e] + rt)
  {
    var r := [e] + rt;
    forall a, b | 0 <= a < b < |r| ensures r[a].key != r[b].key {
      assert r[b] == rt[b - 1];
      if a == 0 { assert KeyList(rt)[b - 1] == rt[b - 1].key; } else { assert r[a] == rt[a - 1]; }
    }
  }

  /** Record appends p to v's list and leaves every other list alone. */
  lemma {:induction false} RecordLookup(m: ElimMap, v: int, p: Pos)
    ensures Lookup(Record(m, v, p), v) == Lookup(m, v) + [p]
    ensures forall w :: w != v ==> Lookup(Record(m, v, p), w) == Lookup(m, w)
    decreases |m|
  {
    if m != [] && m[0].key != v {
      RecordLookup(m[1..], v, p);
      assert Record(m, v, p)[1..] == Record(m[1..], v, p);
    }
  }

  /** Record adds exactly the pair (v, p). */
  lemma {:induction false} RecordPairs(m: ElimMap, v: int, p: Pos)
    ensures Pairs(Record(m, v, p)) == Pairs(m) + {(v, p)}
    decreases |m|
  {
    var r := Record(m, v, p);
    if m == [] {
      assert r[1..] == [];
      assert (set q | q in [p] :: (v, q)) == {(v, p)};
    } else if m[0].key == v {
      assert r[1..] == m[1..];
      assert (set q | q in m[0].cells + [p] :: (v, q)) == (set q | q in m[0].cells :: (v, q)) + {(v, p)};
    } else {
      RecordPairs(m[1..], v, p);
      assert r[1..] == Record(m[1..], v, p);
    }
  }

  /** Record has the semantics of an insertion-ordered dict. */
  lemma RecordEffect(m: ElimMap, v: int, p: Pos)
    requires KeysDistinct(m)
    ensures KeysDistinct(Record(m, v, p))
    ensures KeyList(Record(m, v, p)) == if v in KeyList(m) then KeyList(m) else KeyList(m) + [v]
    ensures Lookup(Record(m, v, p), v) == Lookup(m, v) + [p]
    ensures forall w :: w != v ==> Lookup(Record(m, v, p), w) == Lookup(m, w)
    ensures Pairs(Record(m, v, p)) == Pairs(m) + {(v, p)}
  {
    RecordDistinct(m, v, p);
    RecordKeys(m, v, p);
    RecordLookup(m, v, p);
    RecordPairs(m, v, p);
  }

  /**
   * `for v in removed: record(v, p)`, for the values of removed below n.
   * The values are visited in ascending order, the iteration order of a
   * set of small non-negative ints.
   */
  function RecordUpTo(m: ElimMap, removed: set<int>, p: Pos, n: int): (r: ElimMap)
    decreases n
  {
    if n <= 1 then m
    else
      var r := RecordUpTo(m, removed, p, n - 1);
      if n - 1 in removed then Record(r, n - 1, p) else r
  }

  /** Recording every removed digit of one cell. */
  function RecordRemoved(m: ElimMap, removed: set<int>, p: Pos): ElimMap {
    RecordUpTo(m, removed, p, 10)
  }

  lemma {:induction false} RecordUpToEffect(m: ElimMap, removed: set<int>, p: Pos, n: int)
    requires KeysDistinct(m) && 1 <= n <= 10
    ensures KeysDistinct(RecordUpTo(m, removed, p, n))
    ensures forall w :: Lookup(RecordUpTo(m, removed, p, n), w)
                       == Lookup(m, w) + (if w in removed && 1 <= w < n then [p] else [])
    ensures Pairs(RecordUpTo(m, removed, p, n)) ==
      Pairs(m) + set w | w in removed && 1 <= w < n :: (w, p)
    ensures forall w :: w in KeyList(m) ==> w in KeyList(RecordUpTo(m, removed, p, n))
    ensures forall w :: w in KeyList(RecordUpTo(m, removed, p, n)) ==> w in KeyList(m) || (w in removed && 1 <= w < n)
    decreases n
  {
    if n > 1 {
      RecordUpToEffect(m, removed, p, n - 1);
      var r := RecordUpTo(m, removed, p, n - 1);
      var t := RecordUpTo(m, removed, p, n);
      var k := n - 1;
      RemovedPairsSnoc(removed, p, n);
      if k in removed {
        RecordEffect(r, k, p);
        assert t == Record(r, k, p);
        assert KeysDistinct(t) && Pairs(t) == Pairs(r) + {(k, p)};
      } else {
        assert t == r;
      }
      forall w ensures Lookup(t, w) == Lookup(m, w) + (if w in removed && 1 <= w < n then [p] else []) {
        if w == k {
          assert Lookup(r, w) == Lookup(m, w) + [];
        }
      }
    }
  }

  /** The pairs (w, p) for the removed digits below n: those below n - 1, and (n - 1, p) when n - 1 was removed. */
  lemma RemovedPairsSnoc(removed: set<int>, p: Pos, n: int)
    requires n >= 2
    ensures (set w | w in removed && 1 <= w < n :: (w, p)) ==
      (set w | w in removed && 1 <= w < n - 1 :: (w, p)) + (if n - 1 in removed then {(n - 1, p)} else {})
  {
    var a := set w | w in removed && 1 <= w < n :: (w, p);
    var b := set w | w in removed && 1 <= w < n - 1 :: (w, p);
    var c: set<(int, Pos)> := if n - 1 in removed then {(n - 1, p)} else {};
    forall x | x in a ensures x in b + c {
      var w :| w in removed && 1 <= w < n && x == (w, p);
      if w < n - 1 {
        assert x in b;
      }
    }
    forall x | x in b + c ensures x in a {
      if x in b {
        var w :| w in removed && 1 <= w < n - 1 && x == (w, p);
      } else {
        assert x == (n - 1, p) && n - 1 in removed;
      }
    }
  }

  /**
   * Recording the digits removed from cell p adds exactly the pairs
   * (v, p), v removed, and appends p to each of their lists.
   */
  lemma RecordRemovedEffect(m: ElimMap, removed: set<int>, p: Pos)
    requires KeysDistinct(m) && removed <= Digits
    ensures KeysDistinct(RecordRemoved(m, removed, p))
    ensures forall w :: Lookup(RecordRemoved(m, removed, p), w)
                       == Lookup(m, w) + (if w in removed then [p] else [])
    ensures Pairs(RecordRemoved(m, removed, p)) == Pairs(m) + set w | w in removed :: (w, p)
    ensures forall w :: w in KeyList(RecordRemoved(m, removed, p)) ==> w in KeyList(m) || w in removed
  {
    RecordUpToEffect(m, removed, p, 10);
    assert (set w | w in removed && 1 <= w < 10 :: (w, p)) == set w | w in removed :: (w, p);
  }

  /**
   * The map lists exactly the (value, cell) pairs that were candidates of
   * the board `before` and no longer are candidates of the board `after`.
   */
  ghost predicate RecordsRemovals(before: seq<CellState>, after: seq<CellState>, m: ElimMap)
    requires |before| == 81 && |after| == 81
  {
    KeysDistinct(m)
    && forall v, p :: (v, p) in Pairs(m) <==>
         ValidPos(p) && v in before[Idx(p)].candidates && v !in after[Idx(p)].candidates
  }

  /** Nothing has been removed yet and nothing is listed. */
  lemma RecordsNothing(g: seq<CellState>)
    requires |g| == 81
    ensures RecordsRemovals(g, g, [])
  {
  }

  /** Removing some candidates of one cell and recording them keeps the map exact. */
  lemma RecordShrink(before: seq<CellState>, after: seq<CellState>, m: ElimMap, p: Pos, removed: set<int>)
    requires |before| == 81 && |after| == 81 && RecordsRemovals(before, after, m) && ValidPos(p)
    requires removed <= after[Idx(p)].candidates && after[Idx(p)].candidates <= before[Idx(p)].candidates
    requires removed <= Digits
    ensures RecordsRemovals(before,
      after[Idx(p) := AssignCandidates(after[Idx(p)], after[Idx(p)].candidates - removed)],
      RecordRemoved(m, removed, p))
  {
    RecordRemovedEffect(m, removed, p);
    var h := after[Idx(p) := AssignCandidates(after[Idx(p)], after[Idx(p)].candidates - removed)];
    forall v, q ensures (v, q) in Pairs(RecordRemoved(m, removed, p)) <==>
      ValidPos(q) && v in before[Idx(q)].candidates && v !in h[Idx(q)].candidates
    {
      if ValidPos(q) && q != p {
        IdxDistinct(p, q);
      }
    }
  }

  /** The number of (value, cell) listings, as the step-by-step solver counts them. */
  function ElimCount(m: ElimMap): (n: nat)
    ensures n == 0 <==> forall i :: 0 <= i < |m| ==> m[i].cells == []
    ensures forall i :: 0 <= i < |m| ==> |m[i].cells| <= n
    decreases |m|
  {
    if m == [] then 0 else ElimCount(m[..|m| - 1]) + |m[|m| - 1].cells|
  }

  // ---------------------------------------------------------------------
  // The step record

  /** The human-readable description, kept as the data it is written from. */
  datatype Text =
    | NakedSingleText(position: Pos, value: int, eliminations: ElimMap)
    | EliminationText(technique: string, eliminations: ElimMap)

  datatype TechniqueStep = TechniqueStep(technique: string, description: Text, focusCells: seq<Pos>,
                                         value: Option<int>, eliminations: ElimMap, extra: Option<string>)

  /** TechniqueStep(...): everything stored as passed, except that a missing or empty eliminations list becomes []. */
  function MakeStep(technique: string, description: Text, focusCells: seq<Pos>, value: Option<int> := None,
                    eliminations: Option<ElimMap> := None, extra: Option<string> := None): (s: TechniqueStep)
    ensures s.technique == technique && s.description == description && s.focusCells == focusCells
    ensures s.value == value && s.extra == extra
    ensures eliminations.Some? ==> s.eliminations == eliminations.value
    ensures eliminations.None? ==> s.eliminations == []
  {
    TechniqueStep(technique, description, focusCells, value,
                  if eliminations.Some? then eliminations.value else [], extra)
  }

  /** A value of the dict to_dict returns. */
  datatype Field =
    | StringField(s: string)
    | TextField(t: Text)
    | CellsField(cells: seq<Pos>)
    | ValueField(v: Option<int>)
    | ElimField(m: ElimMap)
    | ExtraField(x: Option<string>)

  const StepKeys: set<string> := {"technique", "description", "focus_cells", "value", "eliminations", "extra"}

  /** to_dict */
  function ToDict(s: TechniqueStep): (d: map<string, Field>)
    ensures d.Keys == StepKeys
  {
    map["technique" := StringField(s.technique), "description" := TextField(s.description),
        "focus_cells" := CellsField(s.focusCells), "value" := ValueField(s.value),
        "eliminations" := ElimField(s.eliminations), "extra" := ExtraField(s.extra)]
  }

  /** Reading a step back from its dict: the partner of to_dict. */
  function FromDict(d: map<string, Field>): Option<TechniqueStep> {
    if StepKeys <= d.Keys
       && d["technique"].StringField? && d["description"].TextField? && d["focus_cells"].CellsField?
       && d["value"].ValueField? && d["eliminations"].ElimField? && d["extra"].ExtraField?
    then Some(TechniqueStep(d["technique"].s, d["description"].t, d["focus_cells"].cells,
                            d["value"].v, d["eliminations"].m, d["extra"].x))
    else None
  }

  /** to_dict keeps every field: the step can be read back from it. */
  lemma ToDictRoundTrip(s: TechniqueStep)
    ensures FromDict(ToDict(s)) == Some(s)
  {
  }
}
