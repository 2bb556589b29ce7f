/** `merge_toml_table`: an override merged into a table, at every depth. */
module Toml {
  import opened Prelude

  datatype Value =
    | String(text: string)
    | Integer(number: int)
    | Float(fraction: real)
    | Boolean(flag: bool)
    | Datetime(stamp: string)
    | Array(items: seq<Value>)
    | Table(entries: map<string, Value>)

  type Entries = map<string, Value>

  /** Appends, in order, the entries not present yet. */
  function AddMissing(xs: seq<Value>, more: seq<Value>): seq<Value>
    decreases |more|
  {
    if more == [] then xs
    else AddMissing(if more[0] in xs then xs else xs + [more[0]], more[1..])
  }

  function MergeValue(v: Value, over: Value): Value
    decreases over, 1
  {
    match v
    case Table(t) => if over.Table? then Table(Merge(t, over.entries)) else v
    case Array(xs) => if over.Array? then Array(AddMissing(xs, over.items)) else v
    case _ => over
  }

  /** Key by key, so in no particular order. */
  function Merge(t: Entries, over: Entries): Entries
    decreases Table(over), 0
  {
    map k | k in t.Keys + over.Keys ::
      if k !in over then t[k]
      else if k !in t then over[k]
      else MergeValue(t[k], over[k])
  }

  // ---- The merging loop ----

  method PushMissing(xs: seq<Value>, more: seq<Value>) returns (r: seq<Value>)
    ensures r == AddMissing(xs, more)
  {
    r := xs;
    var i := 0;
    while i < |more|
      invariant 0 <= i <= |more|
      invariant AddMissing(r, more[i..]) == AddMissing(xs, more)
    {
      assert more[i..][1..] == more[i + 1..];
      if more[i] !in r {
        r := r + [more[i]];
      }
      i := i + 1;
    }
  }

  lemma MergedAt(table: Entries, over: Entries, key: string)
    requires key in over
    ensures Merge(table, over)[key] ==
            if key in table && table[key].Table? then
              (if over[key].Table? then Table(Merge(table[key].entries, over[key].entries)) else table[key])
            else if key in table && table[key].Array? then
              (if over[key].Array? then Array(AddMissing(table[key].items, over[key].items)) else table[key])
            else over[key]
  {
  }

  /** Takes the override's entries in any order. */
  method MergeTomlTable(table: Entries, over: Entries) returns (r: Entries)
    ensures r == Merge(table, over)
    decreases Table(over)
  {
    hide MergeValue, AddMissing;
    ghost var merged := Merge(table, over);
    r := table;
    var todo := over.Keys;
    while todo != {}
      invariant todo <= over.Keys
      invariant r.Keys == table.Keys + (over.Keys - todo)
      invariant forall k :: k in over.Keys - todo ==> r[k] == merged[k]
      invariant forall k :: k in table.Keys - (over.Keys - todo) ==> r[k] == table[k]
      decreases todo
    {
      var key :| key in todo;
      var value := over[key];
      MergedAt(table, over, key);
      if key in r && r[key].Table? {
        if value.Table? {
          var inner := MergeTomlTable(r[key].entries, value.entries);
          r := r[key := Table(inner)];
        }
      } else if key in r && r[key].Array? {
        if value.Array? {
          var inner := PushMissing(r[key].items, value.items);
          r := r[key := Array(inner)];
        }
      } else {
        r := r[key := value];
      }
      todo := todo - {key};
    }
  }

  // ---- Arrays ----

  lemma {:induction false} AddMissingKeeps(xs: seq<Value>, more: seq<Value>)
    ensures xs <= AddMissing(xs, more)
    ensures forall v :: v in AddMissing(xs, more) <==> v in xs || v in more
    decreases |more|
  {
    if more != [] {
      var ys := if more[0] in xs then xs else xs + [more[0]];
      AddMissingKeeps(ys, more[1..]);
      assert more == [more[0]] + more[1..];
    }
  }

  lemma {:induction false} AddMissingNothing(xs: seq<Value>, more: seq<Value>)
    requires forall v :: v in more ==> v in xs
    ensures AddMissing(xs, more) == xs
    decreases |more|
  {
    if more != [] {
      assert more[0] in more;
      AddMissingNothing(xs, more[1..]);
    }
  }

  /** Appended entries are new and mutually distinct. */
  lemma {:induction false} AddMissingDistinct(xs: seq<Value>, more: seq<Value>)
    ensures var r := AddMissing(xs, more);
            forall i, j :: 0 <= i < j < |r| && |xs| <= j ==> r[i] != r[j]
    decreases |more|
  {
    if more != [] {
      var ys := if more[0] in xs then xs else xs + [more[0]];
      AddMissingDistinct(ys, more[1..]);
      AddMissingKeeps(ys, more[1..]);
    }
  }

  /** The entries of `more` that are new at their first occurrence, in its order. */
  function Fresh(xs: seq<Value>, more: seq<Value>): seq<Value> {
    if more == [] then []
    else
      var n := |more| - 1;
      Fresh(xs, more[..n]) + (if more[n] in xs || more[n] in more[..n] then [] else [more[n]])
  }

  lemma {:induction false} AddMissingSnoc(xs: seq<Value>, more: seq<Value>, v: Value)
    ensures AddMissing(xs, more + [v]) ==
            if v in AddMissing(xs, more) then AddMissing(xs, more) else AddMissing(xs, more) + [v]
    decreases |more|
  {
    if more == [] {
      assert more + [v] == [v] && [v][1..] == [];
    } else {
      var ys := if more[0] in xs then xs else xs + [more[0]];
      AddMissingSnoc(ys, more[1..], v);
      assert (more + [v])[1..] == more[1..] + [v];
    }
  }

  lemma FreshLast(xs: seq<Value>, more: seq<Value>)
    requires more != []
    ensures var n := |more| - 1;
            xs + Fresh(xs, more) == if more[n] in xs || more[n] in more[..n] then xs + Fresh(xs, more[..n])
                                    else xs + Fresh(xs, more[..n]) + [more[n]]
  {
    var n := |more| - 1;
    assert Fresh(xs, more[..n]) + [] == Fresh(xs, more[..n]);
  }

  /** Entries are appended in the override's order, each at its first occurrence. */
  lemma {:induction false} AddMissingOrder(xs: seq<Value>, more: seq<Value>)
    ensures AddMissing(xs, more) == xs + Fresh(xs, more)
    decreases |more|
  {
    if more == [] {
      assert xs + [] == xs;
    } else {
      hide AddMissing, Fresh;
      var n := |more| - 1;
      AddMissingOrder(xs, more[..n]);
      AddMissingSnoc(xs, more[..n], more[n]);
      AddMissingKeeps(xs, more[..n]);
      assert more[..n] + [more[n]] == more;
      FreshLast(xs, more);
    }
  }

  // ---- Idempotence at every depth ----

  lemma {:induction false} MergeWithItself(v: Value)
    ensures MergeValue(v, v) == v
    decreases v
  {
    match v
    case Table(t) =>
      forall k | k in t
        ensures Merge(t, t)[k] == t[k]
      {
        MergeWithItself(t[k]);
      }
      assert Merge(t, t) == t;
    case Array(xs) =>
      AddMissingNothing(xs, xs);
    case _ =>
  }

  lemma {:induction false} MergeValueTwice(v: Value, over: Value)
    ensures MergeValue(MergeValue(v, over), over) == MergeValue(v, over)
    decreases over, 1
  {
    match v
    case Table(t) =>
      if over.Table? {
        MergeTwice(t, over.entries);
      }
    case Array(xs) =>
      if over.Array? {
        AddMissingKeeps(xs, over.items);
        AddMissingNothing(AddMissing(xs, over.items), over.items);
      }
    case _ =>
      MergeWithItself(over);
  }

  /** Merging the same override twice equals merging it once. */
  lemma {:induction false} MergeTwice(t: Entries, over: Entries)
    ensures Merge(Merge(t, over), over) == Merge(t, over)
    decreases Table(over), 0
  {
    var once := Merge(t, over);
    forall k | k in once
      ensures Merge(once, over)[k] == once[k]
    {
      if k in over {
        if k in t {
          MergeValueTwice(t[k], over[k]);
        } else {
          MergeWithItself(over[k]);
        }
      }
    }
  }

  // ---- What is kept ----

  /** `v` survives inside `w`: same kind of container, nothing dropped from it. */
  ghost predicate Kept(v: Value, w: Value)
    decreases v
  {
    match v
    case Table(t) => w.Table? && t.Keys <= w.entries.Keys && forall k :: k in t ==> Kept(t[k], w.entries[k])
    case Array(xs) => w.Array? && xs <= w.items
    case _ => true
  }

  lemma {:induction false} KeptRefl(v: Value)
    ensures Kept(v, v)
    decreases v
  {
    if v.Table? {
      forall k | k in v.entries
        ensures Kept(v.entries[k], v.entries[k])
      {
        KeptRefl(v.entries[k]);
      }
    }
  }

  /** Tables stay tables with all their keys, arrays keep their entries as a prefix. */
  lemma {:induction false} MergeKeeps(v: Value, over: Value)
    ensures Kept(v, MergeValue(v, over))
    decreases over
  {
    match v
    case Table(t) =>
      if over.Table? {
        var w := Merge(t, over.entries);
        forall k | k in t
          ensures Kept(t[k], w[k])
        {
          if k in over.entries {
            MergeKeeps(t[k], over.entries[k]);
          } else {
            KeptRefl(t[k]);
          }
        }
      } else {
        KeptRefl(v);
      }
    case Array(xs) =>
      if over.Array? {
        AddMissingKeeps(xs, over.items);
      }
    case _ =>
  }

  // ---- What is found at a path ----

  function Lookup(v: Value, path: seq<string>): Option<Value> {
    if path == [] then Some(v)
    else if v.Table? && path[0] in v.entries then Lookup(v.entries[path[0]], path[1..])
    else None
  }

  /** An array lies on the way, which keeps a table from taking its place. */
  predicate Blocked(v: Value, path: seq<string>) {
    path != [] &&
    (v.Array? || (v.Table? && path[0] in v.entries && Blocked(v.entries[path[0]], path[1..])))
  }

  /**
    What becomes of a value and an override met at the same place: a table keeps
    its keys and gains the override's, an array gains the override's new entries
    in order, both ignore any other kind, and every other value is replaced.
   */
  ghost predicate Settles(v: Value, over: Value, m: Value) {
    match v
    case Table(t) =>
      if over.Table? then m.Table? && m.entries.Keys == t.Keys + over.entries.Keys else m == v
    case Array(xs) =>
      m == if over.Array? then Array(xs + Fresh(xs, over.items)) else v
    case _ => m == over
  }

  lemma MergeSettles(v: Value, over: Value)
    ensures Settles(v, over, MergeValue(v, over))
  {
    if v.Array? && over.Array? {
      AddMissingOrder(v.items, over.items);
    }
  }

  /**
    The merge seen through dotted paths of any length: a path exists afterwards if
    the base had it, or the override has it and no array of the base is in the
    way; values on both sides settle, values on one side are taken unchanged.
   */
  ghost predicate FoundAt(v: Value, over: Value, m: Value, path: seq<string>) {
    match (Lookup(v, path), Lookup(over, path))
    case (Some(a), Some(b)) => Lookup(m, path).Some? && Settles(a, b, Lookup(m, path).value)
    case (Some(a), None) => Lookup(m, path) == Some(a)
    case (None, Some(b)) => Lookup(m, path) == if Blocked(v, path) then None else Some(b)
    case (None, None) => Lookup(m, path) == None
  }

  lemma {:induction false} MergedLookup(v: Value, over: Value, path: seq<string>)
    ensures FoundAt(v, over, MergeValue(v, over), path)
    decreases |path|
  {
    if path == [] {
      MergeSettles(v, over);
    } else if v.Table? && over.Table? {
      var key := path[0];
      if key in v.entries && key in over.entries {
        MergedLookup(v.entries[key], over.entries[key], path[1..]);
      }
    }
  }
}
