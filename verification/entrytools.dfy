/**
 * EntrypointRegistry (relic/core/entrytools.py): a mapping from string keys
 * to values that is filled once, on first use, from the entry points of a
 * group, and whose keys may also be given as objects that a key function
 * turns into strings.
 *
 * The entry points of the group are a given list of (name, loaded value)
 * pairs; finding and importing them is not part of this model.
 */
module EntryTools {
  import opened Errors

  /** A key as the registry accepts it: a string, or an object of the key type. */
  datatype Key<K> = Str(s: string) | Obj(obj: K)

  /**
   * _key2str: a string key is used as it is, any other key goes through the
   * key function, and without a key function it cannot be used at all.
   */
  function KeyToStr<K>(keyFunc: Option<K -> string>, key: Key<K>): (r: Result<string>)
    ensures key.Str? ==> r == Ok(key.s)
    ensures key.Obj? && keyFunc.Some? ==> r == Ok(keyFunc.value(key.obj))
    ensures r.Err? <==> key.Obj? && keyFunc.None?
    ensures r.Err? ==> r.error == KeyNotConvertible
  {
    match key
    case Str(s) => Ok(s)
    case Obj(o) => if keyFunc.Some? then Ok(keyFunc.value(o)) else Err(KeyNotConvertible)
  }

  /**
   * The backing dictionary after _raw_register of every pair in turn: each
   * name maps to the value of its last occurrence.
   */
  function LoadAll<V>(m: map<string, V>, eps: seq<(string, V)>): map<string, V> {
    if eps == [] then m
    else
      var last := eps[|eps| - 1];
      LoadAll(m, eps[..|eps| - 1])[last.0 := last.1]
  }

  /** Loading adds exactly the names of the group to the keys. */
  lemma {:induction false} LoadAllKeys<V>(m: map<string, V>, eps: seq<(string, V)>)
    ensures LoadAll(m, eps).Keys == m.Keys + set i | 0 <= i < |eps| :: eps[i].0
  {
    if eps != [] {
      var front := eps[..|eps| - 1];
      LoadAllKeys(m, front);
      assert forall i :: 0 <= i < |front| ==> front[i] == eps[i];
      assert (set i | 0 <= i < |eps| :: eps[i].0) == (set i | 0 <= i < |front| :: front[i].0) + {eps[|eps| - 1].0};
    }
  }

  /** The value of the last pair named `k`, if any: an independent reading of LoadAll. */
  function LastWith<V>(eps: seq<(string, V)>, k: string): Option<V> {
    if eps == [] then None
    else if eps[|eps| - 1].0 == k then Some(eps[|eps| - 1].1)
    else LastWith(eps[..|eps| - 1], k)
  }

  /** After loading, a name of the group maps to its last value and every other key keeps its value. */
  lemma {:induction false} LoadAllLookup<V>(m: map<string, V>, eps: seq<(string, V)>, k: string)
    requires k in m || LastWith(eps, k).Some?
    ensures k in LoadAll(m, eps)
    ensures LoadAll(m, eps)[k] == if LastWith(eps, k).Some? then LastWith(eps, k).value else m[k]
  {
    if eps != [] && eps[|eps| - 1].0 != k {
      LoadAllLookup(m, eps[..|eps| - 1], k);
    }
  }

  /** The backing dictionary after `value` is stored under each of `keys`. */
  function StoreAll<V>(m: map<string, V>, keys: set<string>, value: V): map<string, V> {
    map k | k in m.Keys + keys :: if k in keys then value else m[k]
  }

  /** After storing, every given key holds the value and every other key keeps its old value. */
  lemma StoreAllLookup<V>(m: map<string, V>, keys: set<string>, value: V)
    ensures StoreAll(m, keys, value).Keys == m.Keys + keys
    ensures forall k :: k in keys ==> StoreAll(m, keys, value)[k] == value
    ensures forall k :: k in m && k !in keys ==> StoreAll(m, keys, value)[k] == m[k]
  {
  }

  /** The strings that the first `n` keys convert to (those that convert). */
  function KeySet<K>(keyFunc: Option<K -> string>, keys: seq<Key<K>>, n: nat): set<string>
    requires n <= |keys|
  {
    set j | 0 <= j < n && KeyToStr(keyFunc, keys[j]).Ok? :: KeyToStr(keyFunc, keys[j]).value
  }

  lemma KeySetStep<K>(keyFunc: Option<K -> string>, keys: seq<Key<K>>, n: nat)
    requires n < |keys| && KeyToStr(keyFunc, keys[n]).Ok?
    ensures KeySet(keyFunc, keys, n + 1) == KeySet(keyFunc, keys, n) + {KeyToStr(keyFunc, keys[n]).value}
  {
    var s := KeyToStr(keyFunc, keys[n]).value;
    assert s in KeySet(keyFunc, keys, n + 1);
  }

  /** Storing under no key changes nothing. */
  lemma StoreAllNone<V>(m: map<string, V>, value: V)
    ensures StoreAll(m, {}, value) == m
  {
  }

  /** Storing under one key more is one more assignment. */
  lemma StoreAllStep<V>(m: map<string, V>, keys: set<string>, k: string, value: V)
    ensures StoreAll(m, keys + {k}, value) == StoreAll(m, keys, value)[k := value]
  {
  }

  /** One more registration of auto_register stores under one more converted key. */
  lemma RegisterStep<K, V>(loaded: map<string, V>, keyFunc: Option<K -> string>, keys: seq<Key<K>>, i: nat,
                           value: V, current: map<string, V>, next: map<string, V>)
    requires i < |keys| && KeyToStr(keyFunc, keys[i]).Ok?
    requires current == StoreAll(loaded, KeySet(keyFunc, keys, i), value)
    requires next == current[KeyToStr(keyFunc, keys[i]).value := value]
    ensures next == StoreAll(loaded, KeySet(keyFunc, keys, i + 1), value)
  {
    KeySetStep(keyFunc, keys, i);
    StoreAllStep(loaded, KeySet(keyFunc, keys, i), KeyToStr(keyFunc, keys[i]).value, value);
  }

  /** The index of the first key that cannot be converted (or the number of keys). */
  function FirstFailure<K>(keyFunc: Option<K -> string>, keys: seq<Key<K>>): (f: nat)
    ensures f <= |keys|
    ensures forall j :: 0 <= j < f ==> KeyToStr(keyFunc, keys[j]).Ok?
    ensures f < |keys| ==> KeyToStr(keyFunc, keys[f]).Err?
  {
    if keys == [] then 0
    else if KeyToStr(keyFunc, keys[0]).Err? then 0
    else
      var rest := FirstFailure(keyFunc, keys[1..]);
      assert forall j :: 1 <= j < 1 + rest ==> keys[j] == keys[1..][j - 1];
      1 + rest
  }

  /** Setting a key that was absent and deleting it again gives back the dictionary. */
  lemma SetThenDelete<V>(m: map<string, V>, k: string, v: V)
    requires k !in m
    ensures m[k := v] - {k} == m
  {
  }

  class EntrypointRegistry<K, V> {
    var backing: map<string, V>
    var autoload: bool
    /** The entry point group's name, and its entry points as (name, loaded value) pairs. */
    const group: string
    const entryPoints: seq<(string, V)>
    const keyFunc: Option<K -> string>
    const autoKeyFunc: Option<V -> seq<Key<K>>>

    constructor (group: string, entryPoints: seq<(string, V)>, keyFunc: Option<K -> string>,
                 autoKeyFunc: Option<V -> seq<Key<K>>>, autoload: bool)
      ensures backing == map[] && this.autoload == autoload
      ensures this.group == group && this.entryPoints == entryPoints
      ensures this.keyFunc == keyFunc && this.autoKeyFunc == autoKeyFunc
    {
      backing := map[];
      this.group := group;
      this.entryPoints := entryPoints;
      this.keyFunc := keyFunc;
      this.autoKeyFunc := autoKeyFunc;
      this.autoload := autoload;
    }

    /** The backing dictionary once the pending autoload (if any) has run. */
    function Loaded(): map<string, V>
      reads this
    {
      if autoload then LoadAll(backing, entryPoints) else backing
    }

    /** _run_autoload: load the group the first time only. */
    method RunAutoload()
      modifies this`backing, this`autoload
      ensures backing == old(Loaded()) && !autoload
    {
      if !autoload {
        return;
      }
      LoadEntrypoints();
      autoload := false;
    }

    /** load_entrypoints: _raw_register each entry point of the group in turn. */
    method LoadEntrypoints()
      modifies this`backing
      ensures backing == LoadAll(old(backing), entryPoints)
    {
      var i := 0;
      while i < |entryPoints|
        invariant 0 <= i <= |entryPoints|
        invariant backing == LoadAll(old(backing), entryPoints[..i])
      {
        assert entryPoints[..i + 1][..i] == entryPoints[..i];
        RawRegister(entryPoints[i].0, entryPoints[i].1);
        i := i + 1;
      }
      assert entryPoints[..i] == entryPoints;
    }

    /** _raw_register: store under the string as given, with no conversion. */
    method RawRegister(key: string, value: V)
      modifies this`backing
      ensures backing == old(backing)[key := value]
    {
      backing := backing[key := value];
    }

    /** __setitem__ */
    method SetItem(key: Key<K>, value: V) returns (r: Outcome)
      modifies this`backing, this`autoload
      ensures !autoload
      ensures KeyToStr(keyFunc, key).Err? ==> r == Fail(KeyNotConvertible) && backing == old(Loaded())
      ensures KeyToStr(keyFunc, key).Ok? ==> r == Pass && backing == old(Loaded())[KeyToStr(keyFunc, key).value := value]
    {
      RunAutoload();
      var trueKey := KeyToStr(keyFunc, key);
      if trueKey.Err? {
        return Fail(trueKey.error);
      }
      backing := backing[trueKey.value := value];
      r := Pass;
    }

    /** __getitem__ */
    method GetItem(key: Key<K>) returns (r: Result<V>)
      modifies this`backing, this`autoload
      ensures !autoload && backing == old(Loaded())
      ensures KeyToStr(keyFunc, key).Err? ==> r == Err(KeyNotConvertible)
      ensures KeyToStr(keyFunc, key).Ok? ==>
                var k := KeyToStr(keyFunc, key).value;
                (k in backing ==> r == Ok(backing[k])) && (k !in backing ==> r == Err(MissingKey(k)))
    {
      RunAutoload();
      var trueKey := KeyToStr(keyFunc, key);
      if trueKey.Err? {
        return Err(trueKey.error);
      }
      if trueKey.value !in backing {
        return Err(MissingKey(trueKey.value));
      }
      r := Ok(backing[trueKey.value]);
    }

    /** __delitem__ */
    method DelItem(key: Key<K>) returns (r: Outcome)
      modifies this`backing, this`autoload
      ensures !autoload
      ensures KeyToStr(keyFunc, key).Err? ==> r == Fail(KeyNotConvertible) && backing == old(Loaded())
      ensures KeyToStr(keyFunc, key).Ok? ==>
                var k := KeyToStr(keyFunc, key).value;
                && (k in old(Loaded()) ==> r == Pass && backing == old(Loaded()) - {k})
                && (k !in old(Loaded()) ==> r == Fail(MissingKey(k)) && backing == old(Loaded()))
    {
      RunAutoload();
      var trueKey := KeyToStr(keyFunc, key);
      if trueKey.Err? {
        return Fail(trueKey.error);
      }
      if trueKey.value !in backing {
        return Fail(MissingKey(trueKey.value));
      }
      backing := backing - {trueKey.value};
      r := Pass;
    }

    /** __contains__ */
    method Contains(key: Key<K>) returns (r: Result<bool>)
      modifies this`backing, this`autoload
      ensures !autoload && backing == old(Loaded())
      ensures KeyToStr(keyFunc, key).Err? ==> r == Err(KeyNotConvertible)
      ensures KeyToStr(keyFunc, key).Ok? ==> r == Ok(KeyToStr(keyFunc, key).value in backing)
    {
      RunAutoload();
      var trueKey := KeyToStr(keyFunc, key);
      if trueKey.Err? {
        return Err(trueKey.error);
      }
      r := Ok(trueKey.value in backing);
    }

    /** __len__ */
    method Len() returns (n: nat)
      modifies this`backing, this`autoload
      ensures !autoload && backing == old(Loaded())
      ensures n == |backing|
    {
      RunAutoload();
      n := |backing|;
    }

    /** register: the same as self[key] = value. */
    method Register(key: Key<K>, value: V) returns (r: Outcome)
      modifies this`backing, this`autoload
      ensures !autoload
      ensures KeyToStr(keyFunc, key).Err? ==> r == Fail(KeyNotConvertible) && backing == old(Loaded())
      ensures KeyToStr(keyFunc, key).Ok? ==> r == Pass && backing == old(Loaded())[KeyToStr(keyFunc, key).value := value]
    {
      r := SetItem(key, value);
    }

    /** One turn of the loop of auto_register: register(keys[i], value). */
    method RegisterNext(keys: seq<Key<K>>, i: nat, value: V, ghost loaded: map<string, V>) returns (r: Outcome)
      requires i < |keys|
      requires i == 0 ==> Loaded() == loaded
      requires i > 0 ==> !autoload && backing == StoreAll(loaded, KeySet(keyFunc, keys, i), value)
      modifies this`backing, this`autoload
      ensures !autoload
      ensures KeyToStr(keyFunc, keys[i]).Err? ==> r == Fail(KeyNotConvertible) && backing == StoreAll(loaded, KeySet(keyFunc, keys, i), value)
      ensures KeyToStr(keyFunc, keys[i]).Ok? ==> r == Pass && backing == StoreAll(loaded, KeySet(keyFunc, keys, i + 1), value)
    {
      ghost var current := Loaded();
      if i == 0 {
        StoreAllNone(loaded, value);
      }
      r := Register(keys[i], value);
      if r.Pass? {
        RegisterStep(loaded, keyFunc, keys, i, value, current, backing);
      }
    }

    /**
     * auto_register: register `value` under every key the auto key function
     * gives, stopping at the first key that cannot be converted.  The
     * autoload runs with the first registration, so not at all when there
     * are no keys.
     */
    method AutoRegister(value: V) returns (r: Outcome)
      modifies this`backing, this`autoload
      ensures autoKeyFunc.None? ==> r == Fail(NoAutoKeyFunc) && backing == old(backing) && autoload == old(autoload)
      ensures autoKeyFunc.Some? ==>
                var keys := autoKeyFunc.value(value);
                var f := FirstFailure(keyFunc, keys);
                && (keys == [] ==> r == Pass && backing == old(backing) && autoload == old(autoload))
                && (keys != [] ==> !autoload && backing == StoreAll(old(Loaded()), KeySet(keyFunc, keys, f), value))
                && (r == Pass <==> f == |keys|)
                && (r.Fail? ==> r.error == KeyNotConvertible)
    {
      if autoKeyFunc.None? {
        return Fail(NoAutoKeyFunc);
      }
      var keys := autoKeyFunc.value(value);
      if keys == [] {
        return Pass;
      }
      ghost var loaded := Loaded();
      assert loaded == old(Loaded());
      ghost var f := FirstFailure(keyFunc, keys);
      var i := 0;
      while i < |keys|
        invariant 0 <= i <= f
        invariant i == 0 ==> backing == old(backing) && autoload == old(autoload)
        invariant i > 0 ==> !autoload && backing == StoreAll(loaded, KeySet(keyFunc, keys, i), value)
      {
        var step := RegisterNext(keys, i, value, loaded);
        if step.Fail? {
          assert i == f;
          return step;
        }
        i := i + 1;
      }
      r := Pass;
    }
  }

  /** A key that converts to the string of a loaded entry point finds that entry point's value. */
  lemma LoadedKeyFindsEntryPoint<K, V>(keyFunc: Option<K -> string>, m: map<string, V>,
                                       eps: seq<(string, V)>, key: Key<K>)
    requires KeyToStr(keyFunc, key).Ok? && LastWith(eps, KeyToStr(keyFunc, key).value).Some?
    ensures KeyToStr(keyFunc, key).value in LoadAll(m, eps)
    ensures LoadAll(m, eps)[KeyToStr(keyFunc, key).value] == LastWith(eps, KeyToStr(keyFunc, key).value).value
  {
    LoadAllLookup(m, eps, KeyToStr(keyFunc, key).value);
  }
}
