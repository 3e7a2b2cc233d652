/** A map cut into a fixed number of shards by a hash of the key. It behaves as
    one map whatever the hash is. */
module ShardedMap {
  import opened Common

  const SHARD_COUNT: nat := 256

  function KeysOf<V>(visited: seq<(string, V)>): set<string>
  {
    set j | 0 <= j < |visited| :: visited[j].0
  }

  ghost predicate NoKeyTwice<V>(visited: seq<(string, V)>)
  {
    forall i, j :: 0 <= i < j < |visited| ==> visited[i].0 != visited[j].0
  }

  ghost predicate EntriesOf<V>(m: map<string, V>, visited: seq<(string, V)>)
  {
    forall j :: 0 <= j < |visited| ==> visited[j].0 in m && m[visited[j].0] == visited[j].1
  }

  lemma KeysOfSnoc<V>(visited: seq<(string, V)>, e: (string, V))
    ensures KeysOf(visited + [e]) == KeysOf(visited) + {e.0}
  {
    var after := visited + [e];
    assert after[|visited|] == e;
    forall k | k in KeysOf(visited) ensures k in KeysOf(after) {
      var j :| 0 <= j < |visited| && visited[j].0 == k;
      assert after[j].0 == k;
    }
  }

  lemma Disjoint(a: set<string>, b: set<string>)
    requires a !! b
    ensures |a + b| == |a| + |b|
  {
  }

  function Shard(hash: string -> nat, key: string): (i: nat)
    ensures i < SHARD_COUNT
  {
    hash(key) % SHARD_COUNT
  }

  /** The shards hold exactly the entries of `m`, each in the shard of its key. */
  ghost predicate Holds<V>(hash: string -> nat, shards: seq<map<string, V>>, m: map<string, V>)
  {
    && |shards| == SHARD_COUNT
    && (forall k :: k in m ==> k in shards[Shard(hash, k)] && shards[Shard(hash, k)][k] == m[k])
    && (forall i, k :: 0 <= i < SHARD_COUNT && k in shards[i] ==> Shard(hash, k) == i && k in m)
  }

  /** Keys that belong to the first `n` shards. */
  ghost function Below<V>(hash: string -> nat, m: map<string, V>, n: nat): set<string>
  {
    set k | k in m && Shard(hash, k) < n
  }

  lemma StoreHolds<V>(hash: string -> nat, shards: seq<map<string, V>>, m: map<string, V>, key: string, value: V)
    requires Holds(hash, shards, m)
    ensures var i := Shard(hash, key);
            Holds(hash, shards[i := shards[i][key := value]], m[key := value])
  {
    hide Shard;
  }

  lemma DeleteHolds<V>(hash: string -> nat, shards: seq<map<string, V>>, m: map<string, V>, key: string)
    requires Holds(hash, shards, m)
    ensures var i := Shard(hash, key);
            Holds(hash, shards[i := shards[i] - {key}], m - {key})
  {
    hide Shard;
  }

  lemma LoadHolds<V>(hash: string -> nat, shards: seq<map<string, V>>, m: map<string, V>, key: string)
    requires Holds(hash, shards, m)
    ensures var s := shards[Shard(hash, key)];
            (key in s <==> key in m) && (key in s ==> s[key] == m[key])
  {
    hide Shard;
  }

  lemma BelowStep<V>(hash: string -> nat, shards: seq<map<string, V>>, m: map<string, V>, n: nat)
    requires Holds(hash, shards, m) && n < SHARD_COUNT
    ensures Below(hash, m, n + 1) == Below(hash, m, n) + shards[n].Keys
    ensures Below(hash, m, n) !! shards[n].Keys
    ensures forall k :: k in shards[n] ==> k in m && m[k] == shards[n][k]
  {
    hide Shard;
  }

  lemma BelowEnds<V>(hash: string -> nat, m: map<string, V>)
    ensures Below(hash, m, 0) == {} && Below(hash, m, SHARD_COUNT) == m.Keys
  {
  }

  lemma VisitNext<V>(m: map<string, V>, visited: seq<(string, V)>, k: string, v: V)
    requires NoKeyTwice(visited) && EntriesOf(m, visited) && k !in KeysOf(visited) && k in m && m[k] == v
    ensures NoKeyTwice(visited + [(k, v)]) && EntriesOf(m, visited + [(k, v)])
    ensures KeysOf(visited + [(k, v)]) == KeysOf(visited) + {k}
  {
    KeysOfSnoc(visited, (k, v));
    forall j | 0 <= j < |visited| ensures visited[j].0 != k {
      assert visited[j].0 in KeysOf(visited);
    }
  }

  class ShardedMap<V(==)> {
    const hash: string -> nat
    const shards: array<map<string, V>>
    /** The one map it stands for. */
    ghost var contents: map<string, V>

    ghost predicate Valid()
      reads this, shards
    {
      shards.Length == SHARD_COUNT && Holds(hash, shards[..], contents)
    }

    constructor (h: string -> nat)
      ensures Valid() && fresh(shards) && hash == h && contents == map[]
    {
      hash := h;
      shards := new map<string, V>[SHARD_COUNT](_ => map[]);
      contents := map[];
    }

    method Load(key: string) returns (v: Option<V>)
      requires Valid()
      ensures v == if key in contents then Some(contents[key]) else None
    {
      LoadHolds(hash, shards[..], contents, key);
      var s := shards[Shard(hash, key)];
      v := if key in s then Some(s[key]) else None;
    }

    method Store(key: string, value: V)
      requires Valid()
      modifies this, shards
      ensures Valid() && contents == old(contents)[key := value]
    {
      hide Shard;
      StoreHolds(hash, shards[..], contents, key, value);
      var i := Shard(hash, key);
      shards[i] := shards[i][key := value];
      assert shards[..] == old(shards[..])[i := old(shards[..])[i][key := value]];
      contents := contents[key := value];
    }

    method Delete(key: string)
      requires Valid()
      modifies this, shards
      ensures Valid() && contents == old(contents) - {key}
    {
      hide Shard;
      DeleteHolds(hash, shards[..], contents, key);
      var i := Shard(hash, key);
      shards[i] := shards[i] - {key};
      assert shards[..] == old(shards[..])[i := old(shards[..])[i] - {key}];
      contents := contents - {key};
    }

    /** Deletes the entry only if it still holds the given value. */
    method DeleteIf(key: string, value: V) returns (deleted: bool)
      requires Valid()
      modifies this, shards
      ensures Valid() && deleted == (key in old(contents) && old(contents)[key] == value)
      ensures contents == if deleted then old(contents) - {key} else old(contents)
    {
      LoadHolds(hash, shards[..], contents, key);
      var s := shards[Shard(hash, key)];
      if key !in s || s[key] != value {
        return false;
      }
      Delete(key);
      return true;
    }

    /** Calls back on entries until `more` says no: each entry at most once, and all
        of them unless the last call stopped it. */
    method Range(more: (string, V) -> bool) returns (visited: seq<(string, V)>, stopped: bool)
      requires Valid()
      ensures NoKeyTwice(visited) && EntriesOf(contents, visited)
      ensures stopped ==> visited != [] && !more(visited[|visited| - 1].0, visited[|visited| - 1].1)
      ensures !stopped ==> KeysOf(visited) == contents.Keys
      ensures forall j :: 0 <= j < |visited| - (if stopped then 1 else 0) ==> more(visited[j].0, visited[j].1)
    {
      hide Holds, NoKeyTwice, EntriesOf, KeysOf, Below, Shard;
      BelowEnds(hash, contents);
      visited, stopped := [], false;
      StartVisit(contents);
      var i := 0;
      while i < SHARD_COUNT
        invariant i <= SHARD_COUNT && KeysOf(visited) == Below(hash, contents, i)
        invariant NoKeyTwice(visited) && EntriesOf(contents, visited)
        invariant forall j :: 0 <= j < |visited| ==> more(visited[j].0, visited[j].1)
      {
        BelowStep(hash, shards[..], contents, i);
        var snapshot := shards[i];
        var todo := snapshot.Keys;
        while todo != {}
          invariant todo <= snapshot.Keys && KeysOf(visited) == Below(hash, contents, i) + (snapshot.Keys - todo)
          invariant NoKeyTwice(visited) && EntriesOf(contents, visited)
          invariant forall j :: 0 <= j < |visited| ==> more(visited[j].0, visited[j].1)
          decreases todo
        {
          var k :| k in todo;
          VisitNext(contents, visited, k, snapshot[k]);
          visited := visited + [(k, snapshot[k])];
          if !more(k, snapshot[k]) {
            return visited, true;
          }
          todo := todo - {k};
        }
        i := i + 1;
      }
    }

    /** Range with a callback that deletes what it is given, as closing every
        connection does: the snapshots make it reach every entry and leave none. */
    method RangeDeleting() returns (visited: seq<(string, V)>)
      requires Valid()
      modifies this, shards
      ensures Valid() && contents == map[]
      ensures NoKeyTwice(visited) && EntriesOf(old(contents), visited)
      ensures KeysOf(visited) == old(contents).Keys
    {
      hide Holds, NoKeyTwice, EntriesOf, KeysOf, Below, Shard;
      ghost var all := contents;
      visited := [];
      StartVisit(contents);
      BelowEnds(hash, contents);
      var i := 0;
      while i < SHARD_COUNT
        invariant i <= SHARD_COUNT && Valid()
        invariant contents == all - KeysOf(visited) && Below(hash, contents, i) == {}
        invariant NoKeyTwice(visited) && EntriesOf(all, visited) && KeysOf(visited) <= all.Keys
      {
        var snapshot := shards[i];
        BelowStep(hash, shards[..], contents, i);
        var todo := snapshot.Keys;
        while todo != {}
          invariant Valid() && todo <= snapshot.Keys && todo <= contents.Keys
          invariant forall k :: k in todo ==> contents[k] == snapshot[k]
          invariant contents == all - KeysOf(visited) && Below(hash, contents, i + 1) == todo
          invariant NoKeyTwice(visited) && EntriesOf(all, visited) && KeysOf(visited) <= all.Keys
          decreases todo
        {
          var k :| k in todo;
          VisitNext(all, visited, k, snapshot[k]);
          visited := visited + [(k, snapshot[k])];
          BelowWithout(hash, contents, i + 1, k);
          Delete(k);
          todo := todo - {k};
        }
        i := i + 1;
      }
      BelowEnds(hash, contents);
    }

    /** What a callback, or anybody else meanwhile, does to the map. */
    method ApplyEdits(es: seq<Edit<V>>)
      requires Valid()
      modifies this, shards
      ensures Valid() && contents == Edited(old(contents), es)
    {
      hide Holds;
      var n := 0;
      assert es[..0] == [];
      while n < |es|
        invariant n <= |es| && Valid() && contents == Edited(old(contents), es[..n])
      {
        assert es[..n + 1][..n] == es[..n];
        match es[n] {
          case Set(k, v) => Store(k, v);
          case Del(k) => Delete(k);
        }
        n := n + 1;
      }
      assert es[..|es|] == es;
    }

    /** Range with a callback that stores and deletes as it likes. No key is visited
        twice, every visited entry was in the map at some time before its visit, and
        every entry that stays in the map throughout is visited. `history` lists the
        contents at the start and after each callback. */
    method RangeEditing(effect: (nat, string, V) -> seq<Edit<V>>)
      returns (visited: seq<(string, V)>, ghost history: seq<map<string, V>>)
      requires Valid()
      modifies this, shards
      ensures Valid() && History(effect, visited, history) && history[0] == old(contents) && history[|visited|] == contents
      ensures NoKeyTwice(visited)
      ensures forall j :: 0 <= j < |visited| ==> SeenBefore(history, j, visited[j])
      ensures forall k :: k in history[0] && Stays(history, k) ==> (k, history[0][k]) in visited
    {
      hide Holds, NoKeyTwice, KeysOf, Shard, SeenBefore, History, Stays;
      visited, history := [], [contents];
      StartEditing(effect, contents);
      var i := 0;
      while i < SHARD_COUNT
        invariant i <= SHARD_COUNT && Valid() && |history| == |visited| + 1 && history[|visited|] == contents
        invariant History(effect, visited, history) && history[0] == old(contents)
        invariant NoKeyTwice(visited) && forall j :: 0 <= j < |visited| ==> SeenBefore(history, j, visited[j])
        invariant forall k :: k in KeysOf(visited) ==> Shard(hash, k) < i
        invariant forall k :: k in history[0] && Stays(history, k) && Shard(hash, k) < i ==> (k, history[0][k]) in visited
      {
        var snapshot := shards[i];
        ghost var at := |visited|;
        ShardIs(hash, shards[..], contents, i);
        var todo := snapshot.Keys;
        while todo != {}
          invariant Valid() && |history| == |visited| + 1 && history[|visited|] == contents
          invariant History(effect, visited, history) && history[0] == old(contents)
          invariant NoKeyTwice(visited) && forall j :: 0 <= j < |visited| ==> SeenBefore(history, j, visited[j])
          invariant at <= |visited| && todo <= snapshot.Keys && forall k :: k in snapshot ==> k in history[at] && history[at][k] == snapshot[k]
          invariant forall k :: k in history[at] && Shard(hash, k) == i ==> k in snapshot
          invariant forall k :: k in snapshot ==> Shard(hash, k) == i
          invariant forall k :: k in KeysOf(visited) ==> Shard(hash, k) < i || (k in snapshot && k !in todo)
          invariant forall k :: k in history[0] && Stays(history, k) && Shard(hash, k) < i ==> (k, history[0][k]) in visited
          invariant forall k :: k in snapshot && k !in todo ==> (k, snapshot[k]) in visited
          decreases todo
        {
          var k :| k in todo;
          ghost var e := (k, snapshot[k]);
          ghost var before, past := visited, history;
          Visit(effect, visited, history, at, k, snapshot[k]);
          var n := |visited|;
          visited := visited + [(k, snapshot[k])];
          ApplyEdits(effect(n, k, snapshot[k]));
          history := history + [contents];
          todo := todo - {k};
          assert forall x :: x in before ==> x in visited;
          assert visited[n] == e;
        }
        forall k | k in history[0] && Stays(history, k) && Shard(hash, k) == i ensures (k, history[0][k]) in visited {
          StaysAt(history, k, at);
        }
        i := i + 1;
      }
    }

    /** The sum of the shard sizes is the size of the one map. */
    method Count() returns (total: nat)
      requires Valid()
      ensures total == |contents|
    {
      hide Holds, Below, Shard;
      BelowEnds(hash, contents);
      total := 0;
      var i := 0;
      while i < SHARD_COUNT
        invariant i <= SHARD_COUNT && total == |Below(hash, contents, i)|
      {
        BelowStep(hash, shards[..], contents, i);
        Disjoint(Below(hash, contents, i), shards[i].Keys);
        total := total + |shards[i]|;
        i := i + 1;
      }
    }
  }

  lemma StartVisit<V>(m: map<string, V>)
    ensures NoKeyTwice<V>([]) && EntriesOf(m, []) && KeysOf<V>([]) == {}
  {
  }

  lemma BelowWithout<V>(hash: string -> nat, m: map<string, V>, n: nat, k: string)
    ensures Below(hash, m - {k}, n) == Below(hash, m, n) - {k}
  {
  }

  // ---------------------------------------------------------------- edits during a traversal

  datatype Edit<V> = Set(key: string, value: V) | Del(key: string)

  function Edited<V>(m: map<string, V>, es: seq<Edit<V>>): map<string, V>
  {
    if es == [] then m
    else
      var before := Edited(m, es[..|es| - 1]);
      match es[|es| - 1]
      case Set(k, v) => before[k := v]
      case Del(k) => before - {k}
  }

  /** The contents before and after each callback. */
  ghost predicate History<V>(effect: (nat, string, V) -> seq<Edit<V>>, visited: seq<(string, V)>, history: seq<map<string, V>>)
  {
    && |history| == |visited| + 1
    && forall j :: 0 <= j < |visited| ==> history[j + 1] == Edited(history[j], effect(j, visited[j].0, visited[j].1))
  }

  /** An entry was in the map no later than at its visit. */
  ghost predicate SeenBefore<V>(history: seq<map<string, V>>, j: nat, e: (string, V))
  {
    exists i :: 0 <= i <= j && i < |history| && e.0 in history[i] && history[i][e.0] == e.1
  }

  /** A key has one value throughout. */
  ghost predicate Stays<V>(history: seq<map<string, V>>, k: string)
  {
    && history != [] && k in history[0]
    && forall i :: 0 <= i < |history| ==> k in history[i] && history[i][k] == history[0][k]
  }

  lemma StartEditing<V>(effect: (nat, string, V) -> seq<Edit<V>>, m: map<string, V>)
    ensures History(effect, [], [m]) && NoKeyTwice<V>([]) && KeysOf<V>([]) == {}
  {
  }

  lemma ShardIs<V>(hash: string -> nat, shards: seq<map<string, V>>, m: map<string, V>, i: nat)
    requires Holds(hash, shards, m) && i < SHARD_COUNT
    ensures forall k :: k in shards[i] <==> k in m && Shard(hash, k) == i
    ensures forall k :: k in shards[i] ==> m[k] == shards[i][k]
  {
    hide Shard;
  }

  lemma StaysAt<V>(history: seq<map<string, V>>, k: string, at: nat)
    requires Stays(history, k) && at < |history|
    ensures k in history[0] && k in history[at] && history[at][k] == history[0][k]
  {
  }

  /** One visit of an entry read at time `at`, and the callback's effect. */
  lemma Visit<V>(effect: (nat, string, V) -> seq<Edit<V>>, visited: seq<(string, V)>, history: seq<map<string, V>>,
                 at: nat, k: string, v: V)
    requires History(effect, visited, history) && NoKeyTwice(visited) && k !in KeysOf(visited)
    requires at <= |visited| && k in history[at] && history[at][k] == v
    requires forall j :: 0 <= j < |visited| ==> SeenBefore(history, j, visited[j])
    ensures var visited', next := visited + [(k, v)], history + [Edited(history[|visited|], effect(|visited|, k, v))];
            && History(effect, visited', next) && NoKeyTwice(visited') && KeysOf(visited') == KeysOf(visited) + {k}
            && (forall j :: 0 <= j < |visited'| ==> SeenBefore(next, j, visited'[j]))
            && (forall x :: Stays(next, x) ==> Stays(history, x) && next[0] == history[0])
  {
    var visited', next := visited + [(k, v)], history + [Edited(history[|visited|], effect(|visited|, k, v))];
    KeysOfSnoc(visited, (k, v));
    forall j | 0 <= j < |visited| ensures visited[j].0 != k {
      assert visited[j].0 in KeysOf(visited);
    }
    forall j | 0 <= j < |visited'| ensures SeenBefore(next, j, visited'[j]) {
      if j < |visited| {
        assert SeenBefore(history, j, visited[j]);
        var i :| 0 <= i <= j && i < |history| && visited[j].0 in history[i] && history[i][visited[j].0] == visited[j].1;
        assert next[i] == history[i];
      } else {
        assert next[at] == history[at];
      }
    }
    forall x | Stays(next, x) ensures Stays(history, x) {
      forall i | 0 <= i < |history| ensures x in history[i] && history[i][x] == history[0][x] {
        assert next[i] == history[i];
      }
    }
  }
}
