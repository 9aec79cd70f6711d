/**
 * The in-memory document store (`Data`): a dictionary from keys to JSON values that callers
 * merge keys into and delete keys or nested leaves from. Reading and writing the file is not
 * part of this model.
 */
module Store {
  import opened Wrappers
  import opened Json

  /**
   * The value reached from `v` by following `path` through nested objects, as the descent loop
   * of `Data.delete` does: each step needs an object holding the next key.
   */
  function Walk(v: Value, path: seq<string>): Option<Value>
    decreases |path|
  {
    if path == [] then Some(v)
    else if v.Obj? && path[0] in v.fields then Walk(v.fields[path[0]], path[1..])
    else None
  }

  /** The dictionary `m` after deleting the leaf at the end of `path`; a broken path leaves it as it was. */
  function DeleteAt(m: map<string, Value>, path: seq<string>): (r: map<string, Value>)
    requires path != []
    ensures r.Keys <= m.Keys
    ensures forall k :: k in r && k != path[0] ==> r[k] == m[k]
    ensures |path| > 1 ==> r.Keys == m.Keys
    decreases |path|
  {
    if |path| == 1 then m - {path[0]}
    else if path[0] in m && m[path[0]].Obj? then m[path[0] := Obj(DeleteAt(m[path[0]].fields, path[1..]))]
    else m
  }

  /** Walking one more key is one more step from where the shorter walk ended. */
  lemma {:induction false} WalkSnoc(v: Value, path: seq<string>, k: string)
    ensures Walk(v, path + [k]) ==
              match Walk(v, path)
              case Some(c) => (if c.Obj? && k in c.fields then Some(c.fields[k]) else None)
              case None => None
    decreases |path|
  {
    if path == [] {
      assert path + [k] == [k];
      assert [k][1..] == [];
    } else {
      assert (path + [k])[0] == path[0];
      assert (path + [k])[1..] == path[1..] + [k];
      if v.Obj? && path[0] in v.fields {
        WalkSnoc(v.fields[path[0]], path[1..], k);
      }
    }
  }

  /** The parent of a path's leaf: every key but the last. */
  function Parent(path: seq<string>): seq<string>
    requires path != []
  {
    path[..|path| - 1]
  }

  /** A descent stuck before it reaches the leaf's parent means there is nothing to delete. */
  lemma StuckDescent(m: map<string, Value>, path: seq<string>, i: nat, current: Value)
    requires i < |path| - 1
    requires Walk(Obj(m), path[..i]) == Some(current)
    requires !(current.Obj? && path[i] in current.fields)
    ensures DeleteAt(m, path) == m
  {
    WalkSnoc(Obj(m), path[..i], path[i]);
    assert path[..i + 1] == path[..i] + [path[i]];
    assert Walk(Obj(m), path[..i + 1]) == None;
    BrokenStaysBroken(Obj(m), path[..i + 1], path[i + 1..|path| - 1]);
    assert path[..i + 1] + path[i + 1..|path| - 1] == Parent(path);
    DeleteAtBrokenPath(m, path);
  }

  /** When the walk to the leaf's parent does not reach an object, deleting changes nothing. */
  lemma {:induction false} DeleteAtBrokenPath(m: map<string, Value>, path: seq<string>)
    requires path != []
    requires !(Walk(Obj(m), Parent(path)).Some? && Walk(Obj(m), Parent(path)).value.Obj?)
    ensures DeleteAt(m, path) == m
    decreases |path|
  {
    if |path| > 1 && path[0] in m && m[path[0]].Obj? {
      var sub := m[path[0]].fields;
      assert Parent(path)[0] == path[0] && Parent(path)[1..] == Parent(path[1..]);
      assert Walk(Obj(m), Parent(path)) == Walk(Obj(sub), Parent(path[1..]));
      DeleteAtBrokenPath(sub, path[1..]);
    }
  }

  /** When the walk reaches a parent object, afterwards it reaches that object without the leaf key. */
  lemma {:induction false} DeleteAtRemovesLeaf(m: map<string, Value>, path: seq<string>, parent: map<string, Value>)
    requires path != []
    requires Walk(Obj(m), Parent(path)) == Some(Obj(parent))
    ensures Walk(Obj(DeleteAt(m, path)), Parent(path)) == Some(Obj(parent - {path[|path| - 1]}))
    decreases |path|
  {
    if |path| == 1 {
      assert Parent(path) == [];
    } else {
      assert Parent(path)[0] == path[0] && Parent(path)[1..] == Parent(path[1..]);
      var sub := m[path[0]].fields;
      assert Walk(Obj(m), Parent(path)) == Walk(Obj(sub), Parent(path[1..]));
      DeleteAtRemovesLeaf(sub, path[1..], parent);
      assert path[1..][|path[1..]| - 1] == path[|path| - 1];
    }
  }

  /** `q` branches away from `p`: at some position both have a key and the keys differ. */
  predicate Diverges(p: seq<string>, q: seq<string>) {
    exists i :: 0 <= i < |p| && i < |q| && p[i] != q[i]
  }

  /** Any path that branches away from the deleted one reaches the same value as before. */
  lemma {:induction false} DeleteAtKeepsOthers(m: map<string, Value>, path: seq<string>, q: seq<string>)
    requires path != [] && Diverges(path, q)
    ensures Walk(Obj(DeleteAt(m, path)), q) == Walk(Obj(m), q)
    decreases |path|
  {
    var i :| 0 <= i < |path| && i < |q| && path[i] != q[i];
    var d := DeleteAt(m, path);
    if q[0] != path[0] {
      assert (q[0] in d <==> q[0] in m) && (q[0] in m ==> d[q[0]] == m[q[0]]);
    } else if path[0] in m && m[path[0]].Obj? {
      assert i > 0 && |path| > 1;
      var sub := m[path[0]].fields;
      assert path[1..][i - 1] != q[1..][i - 1];
      DeleteAtKeepsOthers(sub, path[1..], q[1..]);
      assert Walk(Obj(m), q) == Walk(Obj(sub), q[1..]);
    }
  }

  /** The argument of `Data.delete`: a single top-level key, or a list of keys naming a nested leaf. */
  datatype KeyArg = Key(name: string) | KeyPath(path: seq<string>)

  class Data {
    /** `self.data`: the whole document. */
    var data: map<string, Value>

    /** A store holding `loaded`: the parsed file, or `{}` for a new file or a memory-only store. */
    constructor (loaded: map<string, Value>)
      ensures data == loaded
    {
      data := loaded;
    }

    /** `d[key]`: the value under a top-level key; `None` where Python raises `KeyError`. */
    function Item(key: string): (r: Option<Value>)
      reads this
      ensures r.Some? <==> key in data
      ensures r.Some? ==> r.value == data[key]
    {
      if key in data then Some(data[key]) else None
    }

    /** `get`: the whole document, which holds exactly the keys `d[key]` finds, with the same values. */
    function Get(): (r: map<string, Value>)
      reads this
      ensures forall k :: k in r <==> Item(k).Some?
      ensures forall k :: k in r ==> Item(k) == Some(r[k])
    {
      data
    }

    /** `add`: every given key now holds the given value; every other key keeps its value. */
    method Add(entries: map<string, Value>)
      modifies this
      ensures data.Keys == old(data).Keys + entries.Keys
      ensures forall k :: k in entries ==> data[k] == entries[k]
      ensures forall k :: k in old(data) && k !in entries ==> data[k] == old(data)[k]
    {
      var pending := entries.Keys;
      while pending != {}
        invariant pending <= entries.Keys
        invariant data == old(data) + (entries - pending)
        decreases pending
      {
        var k :| k in pending;
        data := data[k := entries[k]];
        pending := pending - {k};
      }
      assert entries - {} == entries;
    }

    /**
     * `delete`: a string key is popped from the top level; a non-empty list of keys is walked
     * through nested objects and its last key popped from the object reached. A missing key, a
     * missing intermediate key or a non-object on the way leaves the document as it was.
     */
    method Delete(key: KeyArg)
      modifies this
      ensures key.Key? ==> data == old(data) - {key.name}
      ensures key.KeyPath? && key.path == [] ==> data == old(data)
      ensures key.KeyPath? && key.path != [] ==> data == DeleteAt(old(data), key.path)
    {
      if key.Key? {
        data := data - {key.name};
        return;
      }
      var path := key.path;
      if path == [] {
        return;
      }
      var frames, current, stuck := Descend(path);
      if stuck {
        return;
      }
      if !current.Obj? {
        DeleteAtBrokenPath(data, path);
        return;
      }
      data := Rebuild(path, frames + [current.fields]);
    }

    /**
     * The descent of `delete` to the parent of the leaf: `frames` holds the objects passed
     * through and `current` the value reached. It is `stuck` when a key on the way is missing
     * or names a non-object, and then there is nothing to delete.
     */
    method Descend(path: seq<string>) returns (frames: seq<map<string, Value>>, current: Value, stuck: bool)
      requires path != []
      ensures stuck ==> DeleteAt(data, path) == data
      ensures !stuck ==> && |frames| == |path| - 1
                         && Walk(Obj(data), Parent(path)) == Some(current)
                         && (frames == [] ==> current == Obj(data))
                         && (forall j :: 0 <= j < |frames| ==> path[j] in frames[j])
                         && (frames != [] ==> frames[0] == data && frames[|frames| - 1][path[|frames| - 1]] == current)
                         && (forall j :: 0 <= j < |frames| - 1 ==> frames[j][path[j]] == Obj(frames[j + 1]))
    {
      current := Obj(data);
      frames := [];
      var i := 0;
      while i < |path| - 1
        invariant 0 <= i <= |path| - 1
        invariant |frames| == i
        invariant Walk(Obj(data), path[..i]) == Some(current)
        invariant i == 0 ==> current == Obj(data)
        invariant i > 0 ==> frames[0] == data
        invariant forall j :: 0 <= j < i ==> path[j] in frames[j]
        invariant forall j :: 0 <= j < i - 1 ==> frames[j][path[j]] == Obj(frames[j + 1])
        invariant i > 0 ==> frames[i - 1][path[i - 1]] == current
      {
        if !(current.Obj? && path[i] in current.fields) {
          StuckDescent(data, path, i, current);
          return frames, current, true;
        }
        WalkSnoc(Obj(data), path[..i], path[i]);
        assert path[..i + 1] == path[..i] + [path[i]];
        frames := frames + [current.fields];
        current := current.fields[path[i]];
        i := i + 1;
      }
      assert path[..i] == Parent(path);
      return frames, current, false;
    }

    /**
     * The rebuild of `delete` from the leaf's parent up to the root: the last key is popped from
     * the last frame, and each frame above takes the rebuilt object under its key.
     */
    method Rebuild(path: seq<string>, frames: seq<map<string, Value>>) returns (m: map<string, Value>)
      requires path != [] && |frames| == |path|
      requires forall j :: 0 <= j < |path| - 1 ==> path[j] in frames[j] && frames[j][path[j]] == Obj(frames[j + 1])
      ensures m == DeleteAt(frames[0], path)
    {
      m := frames[|path| - 1] - {path[|path| - 1]};
      var j := |path| - 1;
      while j > 0
        invariant 0 <= j <= |path| - 1
        invariant m == DeleteAt(frames[j], path[j..])
      {
        j := j - 1;
        assert path[j..][1..] == path[j + 1..];
        m := frames[j][path[j] := Obj(m)];
      }
    }

    /** The start-up repair: a missing or non-list `matches` entry becomes an empty list. */
    method NormaliseMatches()
      modifies this
      ensures "matches" in data && data["matches"].Arr?
      ensures old("matches" in data && data["matches"].Arr?) ==> data == old(data)
      ensures !old("matches" in data && data["matches"].Arr?) ==> data == old(data)["matches" := Arr([])]
    {
      if !("matches" in data && data["matches"].Arr?) {
        data := data["matches" := Arr([])];
      }
    }
  }

  lemma {:induction false} BrokenStaysBroken(v: Value, p: seq<string>, q: seq<string>)
    requires Walk(v, p) == None
    ensures Walk(v, p + q) == None
    decreases |p|
  {
    assert p != [];
    assert (p + q)[0] == p[0] && (p + q)[1..] == p[1..] + q;
    if v.Obj? && p[0] in v.fields {
      BrokenStaysBroken(v.fields[p[0]], p[1..], q);
    }
  }
}
