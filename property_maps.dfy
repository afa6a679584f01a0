/** An ordered, string-keyed record: what a JavaScript object becomes when it is
    filled by assignment (`obj[key] = value`), and what a node's property list is.
    Keys are unique; a key keeps the position of its first assignment and the
    value of its last one. */
module PropertyMaps {
  import opened Options

  datatype Entry = Entry(key: string, value: string)

  /** The keys of an entry list, in order. */
  function Keys(obj: seq<Entry>): (ks: seq<string>)
    ensures |ks| == |obj|
  {
    if obj == [] then [] else [obj[0].key] + Keys(obj[1..])
  }

  /** The `i`-th key is the key of the `i`-th entry. */
  lemma {:induction false} KeysIndex(obj: seq<Entry>)
    ensures forall i :: 0 <= i < |obj| ==> Keys(obj)[i] == obj[i].key
  {
    if obj != [] {
      KeysIndex(obj[1..]);
      assert forall i :: 1 <= i < |obj| ==> obj[i] == obj[1..][i - 1];
    }
  }

  ghost predicate UniqueKeys(obj: seq<Entry>)
  {
    forall i, j :: 0 <= i < j < |obj| ==> obj[i].key != obj[j].key
  }

  /** `obj[k]`: the value stored under `k`, if any. */
  function Lookup(obj: seq<Entry>, k: string): Option<string>
  {
    if obj == [] then None
    else if obj[0].key == k then Some(obj[0].value)
    else Lookup(obj[1..], k)
  }

  /** A lookup finds a value exactly for the keys the object has. */
  lemma {:induction false} LookupFindsKeys(obj: seq<Entry>, k: string)
    ensures Lookup(obj, k).Some? <==> k in Keys(obj)
  {
    if obj != [] {
      LookupFindsKeys(obj[1..], k);
    }
  }

  /** `obj[k] = v`: an existing key is updated where it stands, a new key is added last. */
  function Put(obj: seq<Entry>, k: string, v: string): seq<Entry>
  {
    if obj == [] then [Entry(k, v)]
    else if obj[0].key == k then [Entry(k, v)] + obj[1..]
    else [obj[0]] + Put(obj[1..], k, v)
  }

  /** After `obj[k] = v`, `k` holds `v` and every other key holds what it held before. */
  lemma {:induction false} PutLookup(obj: seq<Entry>, k: string, v: string, k': string)
    ensures Lookup(Put(obj, k, v), k') == if k' == k then Some(v) else Lookup(obj, k')
  {
    if obj != [] && obj[0].key != k {
      PutLookup(obj[1..], k, v, k');
      assert ([obj[0]] + Put(obj[1..], k, v))[1..] == Put(obj[1..], k, v);
    }
    if obj != [] && obj[0].key == k {
      assert ([Entry(k, v)] + obj[1..])[1..] == obj[1..];
    }
  }

  /** Putting keeps the key order: a new key goes last, an existing key stays put. */
  lemma {:induction false} PutKeys(obj: seq<Entry>, k: string, v: string)
    ensures Keys(Put(obj, k, v)) == if k in Keys(obj) then Keys(obj) else Keys(obj) + [k]
  {
    if obj != [] && obj[0].key != k {
      PutKeys(obj[1..], k, v);
      assert ([obj[0]] + Put(obj[1..], k, v))[1..] == Put(obj[1..], k, v);
    }
    if obj != [] && obj[0].key == k {
      assert ([Entry(k, v)] + obj[1..])[1..] == obj[1..];
    }
  }

  /** The object obtained by assigning the entries of `list` one after another,
      starting from an empty object. */
  function Assigned(list: seq<Entry>): seq<Entry>
  {
    if list == [] then []
    else
      var last := list[|list| - 1];
      Put(Assigned(list[..|list| - 1]), last.key, last.value)
  }

  /** Assigning one more entry puts it into the object built so far. */
  lemma AssignedSnoc(list: seq<Entry>, e: Entry)
    ensures Assigned(list + [e]) == Put(Assigned(list), e.key, e.value)
  {
    assert (list + [e])[..|list|] == list;
  }

  /** The value of the last entry of `list` whose key is `k`. */
  function LastValue(list: seq<Entry>, k: string): Option<string>
  {
    if list == [] then None
    else if list[|list| - 1].key == k then Some(list[|list| - 1].value)
    else LastValue(list[..|list| - 1], k)
  }

  /** The keys of `list` in the order in which each first occurs. */
  function FirstOccurrences(list: seq<Entry>): seq<string>
  {
    if list == [] then []
    else
      var init := FirstOccurrences(list[..|list| - 1]);
      if list[|list| - 1].key in init then init else init + [list[|list| - 1].key]
  }

  /** When a key is assigned several times, the object holds the last value. */
  lemma {:induction false} AssignedKeepsLastValue(list: seq<Entry>, k: string)
    ensures Lookup(Assigned(list), k) == LastValue(list, k)
  {
    if list != [] {
      AssignedKeepsLastValue(list[..|list| - 1], k);
      PutLookup(Assigned(list[..|list| - 1]), list[|list| - 1].key, list[|list| - 1].value, k);
    }
  }

  /** The object's keys are the distinct keys of `list`, in first-occurrence order. */
  lemma {:induction false} AssignedKeysInFirstOccurrenceOrder(list: seq<Entry>)
    ensures Keys(Assigned(list)) == FirstOccurrences(list)
  {
    if list != [] {
      AssignedKeysInFirstOccurrenceOrder(list[..|list| - 1]);
      PutKeys(Assigned(list[..|list| - 1]), list[|list| - 1].key, list[|list| - 1].value);
    }
  }

  /** Putting a new key or re-putting an existing one never duplicates a key. */
  lemma PutKeepsKeysUnique(obj: seq<Entry>, k: string, v: string)
    requires UniqueKeys(obj)
    ensures UniqueKeys(Put(obj, k, v))
  {
    var r := Put(obj, k, v);
    PutKeys(obj, k, v);
    KeysIndex(obj);
    KeysIndex(r);
    forall i, j | 0 <= i < j < |r| ensures r[i].key != r[j].key {
      assert Keys(r)[i] == r[i].key && Keys(r)[j] == r[j].key;
      if k !in Keys(obj) && j == |obj| {
        assert Keys(obj)[i] == obj[i].key;
      } else {
        assert Keys(obj)[i] == obj[i].key && Keys(obj)[j] == obj[j].key;
      }
    }
  }

  /** An object built by assignment never holds a key twice. */
  lemma {:induction false} AssignedHasUniqueKeys(list: seq<Entry>)
    ensures UniqueKeys(Assigned(list))
  {
    if list != [] {
      AssignedHasUniqueKeys(list[..|list| - 1]);
      PutKeepsKeysUnique(Assigned(list[..|list| - 1]), list[|list| - 1].key, list[|list| - 1].value);
    }
  }

  /** Assigning the entries of an object that already has unique keys rebuilds that object. */
  lemma {:induction false} AssignedUniqueIsIdentity(obj: seq<Entry>)
    requires UniqueKeys(obj)
    ensures Assigned(obj) == obj
  {
    if obj != [] {
      var init, last := obj[..|obj| - 1], obj[|obj| - 1];
      assert UniqueKeys(init) by {
        forall i, j | 0 <= i < j < |init| ensures init[i].key != init[j].key {
          assert init[i] == obj[i] && init[j] == obj[j];
        }
      }
      AssignedUniqueIsIdentity(init);
      KeysIndex(init);
      assert last.key !in Keys(init) by {
        forall i | 0 <= i < |init| ensures Keys(init)[i] != last.key {
          assert init[i] == obj[i];
        }
      }
      PutAppendsNewKey(init, last.key, last.value);
      assert init + [Entry(last.key, last.value)] == obj;
    }
  }

  /** Putting a key that is not yet present appends exactly that entry. */
  lemma {:induction false} PutAppendsNewKey(obj: seq<Entry>, k: string, v: string)
    requires k !in Keys(obj)
    ensures Put(obj, k, v) == obj + [Entry(k, v)]
  {
    if obj != [] {
      PutAppendsNewKey(obj[1..], k, v);
      assert [obj[0]] + (obj[1..] + [Entry(k, v)]) == obj + [Entry(k, v)];
    }
  }
}
