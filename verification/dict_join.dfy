/**
 * `extend_dict_list`: a left join of a list of dicts with a second list on one key, copying
 * the requested attributes of the matching record into a copy of each source record.
 */
module DictJoin {
  import opened Wrappers

  /** A Python dict with string keys; a stored Python `None` is `None`, any other value `Some`. */
  type Record<V> = map<string, Option<V>>

  /** The `KeyError` raised when a record lacks the join key. */
  datatype JoinError = KeyError(key: string)

  /** `d.get(a)`: the stored value, or `None` when the key is absent. */
  function Get<V(==)>(d: Record<V>, a: string): Option<V>
  {
    if a in d then d[a] else None
  }

  predicate AllHaveKey<V(==)>(records: seq<Record<V>>, key: string)
  {
    forall i :: 0 <= i < |records| ==> key in records[i]
  }

  /** Record `j` of `ext` carries `v` under `joinKey`. */
  ghost predicate MatchesAt<V>(ext: seq<Record<V>>, joinKey: string, v: Option<V>, j: int)
  {
    0 <= j < |ext| && joinKey in ext[j] && ext[j][joinKey] == v
  }

  /** Record `j` is the last record of `ext` carrying `v` under `joinKey`. */
  ghost predicate IsLastMatch<V>(ext: seq<Record<V>>, joinKey: string, v: Option<V>, j: int)
  {
    MatchesAt(ext, joinKey, v, j) && forall j' :: j < j' < |ext| ==> !MatchesAt(ext, joinKey, v, j')
  }

  /** No record of `ext` carries `v` under `joinKey`. */
  ghost predicate NoMatch<V>(ext: seq<Record<V>>, joinKey: string, v: Option<V>)
  {
    forall j :: 0 <= j < |ext| ==> !MatchesAt(ext, joinKey, v, j)
  }

  /** `{item[joinKey]: item for item in ext}`: a later record overwrites an earlier one. */
  function Index<V(==)>(ext: seq<Record<V>>, joinKey: string): map<Option<V>, Record<V>>
    requires AllHaveKey(ext, joinKey)
  {
    if ext == [] then map[]
    else Index(ext[..|ext| - 1], joinKey)[ext[|ext| - 1][joinKey] := ext[|ext| - 1]]
  }

  /** The index maps each key value to the last record carrying it, and knows no other values. */
  lemma {:induction false} IndexLastWins<V>(ext: seq<Record<V>>, joinKey: string, v: Option<V>)
    requires AllHaveKey(ext, joinKey)
    ensures v in Index(ext, joinKey) ==> exists j :: IsLastMatch(ext, joinKey, v, j) && Index(ext, joinKey)[v] == ext[j]
    ensures v !in Index(ext, joinKey) ==> NoMatch(ext, joinKey, v)
  {
    if ext != [] {
      var init := ext[..|ext| - 1];
      var n := |ext| - 1;
      assert AllHaveKey(init, joinKey) by {
        forall i | 0 <= i < |init| ensures joinKey in init[i] {
          assert init[i] == ext[i];
        }
      }
      IndexLastWins(init, joinKey, v);
      if ext[n][joinKey] == v {
        assert IsLastMatch(ext, joinKey, v, n);
      } else if v in Index(init, joinKey) {
        var j :| IsLastMatch(init, joinKey, v, j) && Index(init, joinKey)[v] == init[j];
        assert init[j] == ext[j];
        forall j' | j < j' < |ext| ensures !MatchesAt(ext, joinKey, v, j') {
          if j' < n {
            assert init[j'] == ext[j'];
            assert !MatchesAt(init, joinKey, v, j');
          }
        }
        assert IsLastMatch(ext, joinKey, v, j);
      } else {
        forall j | 0 <= j < |ext| ensures !MatchesAt(ext, joinKey, v, j) {
          if j < n {
            assert init[j] == ext[j];
            assert !MatchesAt(init, joinKey, v, j);
          }
        }
      }
    }
  }

  /**
   * The inner loop: `item[a] = extItem.get(a)` for each requested attribute in turn. The
   * requested attributes take the extension's values (or `None`); every other key keeps its
   * value.
   */
  function SetAttrs<V(==)>(item: Record<V>, extItem: Record<V>, attrs: seq<string>): (r: Record<V>)
    ensures r.Keys == item.Keys + set a | a in attrs
    ensures forall a :: a in attrs ==> r[a] == Get(extItem, a)
    ensures forall a :: a in item && a !in attrs ==> r[a] == item[a]
    decreases attrs
  {
    if attrs == [] then item
    else SetAttrs(item[attrs[0] := Get(extItem, attrs[0])], extItem, attrs[1..])
  }

  /** One output record: the copy of `item` extended from its match in `index`, or from `{}`. */
  function ExtendOne<V(==)>(item: Record<V>, index: map<Option<V>, Record<V>>, joinKey: string, attrs: seq<string>): Record<V>
    requires joinKey in item
  {
    var key := item[joinKey];
    SetAttrs(item, if key in index then index[key] else map[], attrs)
  }

  /**
   * The join. It raises `KeyError` when an extension record or a source record lacks the join
   * key. Otherwise output record `i` comes from source record `i`: it has the source's keys
   * plus the requested attributes, the source's other values unchanged, and each requested
   * attribute holds the value of the last extension record sharing its key (`None` where that
   * record lacks the attribute, and `None` throughout when no record shares the key).
   */
  function ExtendDictList<V(==)>(source: seq<Record<V>>, ext: seq<Record<V>>, joinKey: string, attrs: seq<string>)
    : (r: Result<seq<Record<V>>, JoinError>)
    ensures r.Failure? <==> !AllHaveKey(ext, joinKey) || !AllHaveKey(source, joinKey)
    ensures r.Failure? ==> r.error == KeyError(joinKey)
    ensures r.Success? ==> |r.value| == |source|
    ensures r.Success? ==> forall i :: 0 <= i < |source| ==>
      r.value[i].Keys == source[i].Keys + set a | a in attrs
    ensures r.Success? ==> forall i, a :: 0 <= i < |source| && a in source[i] && a !in attrs ==>
      r.value[i][a] == source[i][a]
    ensures r.Success? ==> forall i, j, a ::
      (0 <= i < |source| && a in attrs && IsLastMatch(ext, joinKey, source[i][joinKey], j))
      ==> r.value[i][a] == Get(ext[j], a)
    ensures r.Success? ==> forall i, a ::
      (0 <= i < |source| && a in attrs && NoMatch(ext, joinKey, source[i][joinKey]))
      ==> r.value[i][a] == None
  {
    if !AllHaveKey(ext, joinKey) then Failure(KeyError(joinKey))
    else if !AllHaveKey(source, joinKey) then Failure(KeyError(joinKey))
    else
      var index := Index(ext, joinKey);
      var out := seq(|source|, i requires 0 <= i < |source| => ExtendOne(source[i], index, joinKey, attrs));
      JoinedValues(source, ext, joinKey, attrs, index, out);
      Success(out)
  }

  /** A record has at most one last match. */
  lemma LastMatchUnique<V>(ext: seq<Record<V>>, joinKey: string, v: Option<V>, j: int, j': int)
    requires IsLastMatch(ext, joinKey, v, j) && IsLastMatch(ext, joinKey, v, j')
    ensures j == j'
  {
  }

  lemma JoinedValues<V>(source: seq<Record<V>>, ext: seq<Record<V>>, joinKey: string, attrs: seq<string>,
                        index: map<Option<V>, Record<V>>, out: seq<Record<V>>)
    requires AllHaveKey(ext, joinKey) && AllHaveKey(source, joinKey)
    requires index == Index(ext, joinKey)
    requires |out| == |source|
    requires forall i :: 0 <= i < |source| ==> out[i].Keys == source[i].Keys + set a | a in attrs
    requires forall i :: 0 <= i < |source| ==> out[i] == ExtendOne(source[i], index, joinKey, attrs)
    ensures forall i, j, a ::
      (0 <= i < |source| && a in attrs && IsLastMatch(ext, joinKey, source[i][joinKey], j))
      ==> out[i][a] == Get(ext[j], a)
    ensures forall i, a ::
      (0 <= i < |source| && a in attrs && NoMatch(ext, joinKey, source[i][joinKey]))
      ==> out[i][a] == None
  {
    forall i, j, a | 0 <= i < |source| && a in attrs && IsLastMatch(ext, joinKey, source[i][joinKey], j)
      ensures out[i][a] == Get(ext[j], a)
    {
      var v := source[i][joinKey];
      IndexLastWins(ext, joinKey, v);
      var j' :| IsLastMatch(ext, joinKey, v, j') && index[v] == ext[j'];
      LastMatchUnique(ext, joinKey, v, j, j');
    }
    forall i, a | 0 <= i < |source| && a in attrs && NoMatch(ext, joinKey, source[i][joinKey])
      ensures out[i][a] == None
    {
      var v := source[i][joinKey];
      IndexLastWins(ext, joinKey, v);
    }
  }

  /** With no attributes requested the join is a plain copy of the source. */
  lemma NoAttrsCopies<V>(source: seq<Record<V>>, ext: seq<Record<V>>, joinKey: string)
    requires AllHaveKey(ext, joinKey) && AllHaveKey(source, joinKey)
    ensures ExtendDictList(source, ext, joinKey, []) == Success(source)
  {
    var out := ExtendDictList(source, ext, joinKey, []).value;
    var none: seq<string> := [];
    assert (set a | a in none) == {};
    forall i | 0 <= i < |source| ensures out[i] == source[i] {
      assert out[i].Keys == source[i].Keys;
      forall a | a in source[i] ensures out[i][a] == source[i][a] {
        assert a !in none;
      }
    }
    assert out == source;
  }

  /** Joining with an empty extension list sets every requested attribute to `None`. */
  lemma EmptyExtensionGivesNone<V>(source: seq<Record<V>>, joinKey: string, attrs: seq<string>)
    requires AllHaveKey(source, joinKey)
    ensures ExtendDictList(source, [], joinKey, attrs).Success?
    ensures forall i, a :: 0 <= i < |source| && a in attrs ==>
      ExtendDictList(source, [], joinKey, attrs).value[i][a] == None
  {
  }
}
