/**
 * `LocaleEntry`: the strings of one language, keyed by localisation key, which is also
 * its own enumerator over the keys (through a queue that is null between enumerations).
 */
module LocaleEntries {
  import opened Wrappers
  import opened Languages

  /**
   * The lookup rule of `GetValue`: the stored text, unless the key is missing or its
   * text is empty, in which case the key itself stands in for the text.
   */
  function Lookup(m: map<string, string>, key: string): string
  {
    if key in m && m[key] != "" then m[key] else key
  }

  lemma LookupAfterSet(m: map<string, string>, key: string, value: string)
    ensures Lookup(m[key := value], key) == (if value == "" then key else value)
  {
  }

  lemma LookupOtherKey(m: map<string, string>, key: string, other: string, value: string)
    requires other != key
    ensures Lookup(m[key := value], other) == Lookup(m, other)
  {
  }

  /** The fallback never yields the empty text for a non-empty key. */
  lemma LookupNonEmpty(m: map<string, string>, key: string)
    requires key != ""
    ensures Lookup(m, key) != ""
  {
  }

  /** `ks` enumerates the set `keys`: each element once, in some order. */
  ghost predicate Listing(ks: seq<string>, keys: set<string>)
  {
    (forall i, j | 0 <= i < j < |ks| :: ks[i] != ks[j]) &&
    (forall k :: k in ks <==> k in keys)
  }

  /** The elements of a listing are its set. */
  lemma ListingElements(ks: seq<string>, keys: set<string>)
    requires Listing(ks, keys)
    ensures (set k | k in ks) == keys
  {
    var e := set k | k in ks;
    forall k
      ensures k in e <==> k in keys
    {
    }
  }

  /** `new Queue<string>(_map.Keys)`: the keys in the dictionary's (unspecified) order. */
  method KeySnapshot(keys: set<string>) returns (ks: seq<string>)
    ensures Listing(ks, keys)
  {
    ks := [];
    var rest := keys;
    while rest != {}
      invariant forall i, j | 0 <= i < j < |ks| :: ks[i] != ks[j]
      invariant forall k :: k in ks <==> k in keys && k !in rest
      invariant rest <= keys
      decreases |rest|
    {
      var k :| k in rest;
      ks := ks + [k];
      rest := rest - {k};
    }
  }

  /** Thrown by `Queue.Dequeue` on an empty queue. */
  datatype EnumeratorError = InvalidOperation

  class LocaleEntry {
    /** Fixed at construction. */
    const language: Language
    /** `_map`: the text of each key. */
    var texts: map<string, string>
    /** `_iteratorQueue`: `None` while no enumeration is in progress. */
    var queue: Option<seq<string>>

    constructor (language: Language)
      ensures this.language == language
      ensures texts == map[] && queue == None
    {
      this.language := language;
      texts := map[];
      queue := None;
    }

    /** Adds or overwrites the text of `key`. */
    method SetValue(key: string, value: string)
      modifies this`texts
      ensures texts == old(texts)[key := value]
    {
      texts := texts[key := value];
    }

    /** The text of `key`, or `key` itself when it is missing or empty. */
    function GetValue(key: string): (r: string)
      reads this`texts
      ensures key in texts && texts[key] != "" ==> r == texts[key]
      ensures key !in texts || texts[key] == "" ==> r == key
    {
      Lookup(texts, key)
    }

    /**
     * `IEnumerator.MoveNext`: the first call takes a snapshot of the keys, each later call
     * drops the head of the queue; the result says whether a current key exists.
     * Dequeuing an already empty queue throws.
     */
    method MoveNext() returns (r: Result<bool, EnumeratorError>)
      modifies this`queue
      ensures old(queue).None? ==>
        queue.Some? && Listing(queue.value, texts.Keys) && r == Ok(queue.value != [])
      ensures old(queue).Some? && old(queue).value != [] ==>
        queue == Some(old(queue).value[1..]) && r == Ok(|old(queue).value| > 1)
      ensures old(queue) == Some([]) ==> queue == old(queue) && r == Err(InvalidOperation)
    {
      if queue.None? {
        var ks := KeySnapshot(texts.Keys);
        queue := Some(ks);
      } else if queue.value == [] {
        return Err(InvalidOperation);
      } else {
        queue := Some(queue.value[1..]);
      }
      r := Ok(queue.value != []);
    }

    /** `IEnumerator.Current`: the head of the queue, or null. */
    function Current(): (r: Option<string>)
      reads this`queue
      ensures r.Some? <==> queue.Some? && queue.value != []
      ensures r.Some? ==> r.value == queue.value[0]
    {
      if queue.Some? && queue.value != [] then Some(queue.value[0]) else None
    }

    /** `IDisposable.Dispose`: ends any enumeration in progress. */
    method Dispose()
      modifies this`queue
      ensures queue == None
    {
      if queue.None? {
        return;
      }
      queue := None;
    }

    /** `IEnumerator.Reset` is `Dispose`. */
    method Reset()
      modifies this`queue
      ensures queue == None
    {
      Dispose();
    }

    /**
     * A `foreach` over the entry: `GetEnumerator` returns the entry itself, the loop
     * collects `Current` while `MoveNext` is true, and `Dispose` closes it. From a fresh
     * state every key is visited once; when an earlier enumeration was left open, the
     * loop resumes it after the current key, and an exhausted one throws at once.
     */
    method Keys() returns (keys: seq<string>, r: Result<(), EnumeratorError>)
      modifies this`queue
      ensures queue == None
      ensures old(queue).None? ==> r.Ok? && Listing(keys, texts.Keys)
      ensures old(queue).Some? && old(queue).value != [] ==>
        r.Ok? && keys == old(queue).value[1..]
      ensures old(queue) == Some([]) ==> r.Err? && keys == []
    {
      keys := [];
      var more := MoveNext();
      if more.Err? {
        Dispose();
        return keys, Err(more.error);
      }
      ghost var snapshot := queue.value;
      while more == Ok(true)
        invariant more.Ok? && queue.Some? && |keys| <= |snapshot|
        invariant queue.value == snapshot[|keys|..]
        invariant keys == snapshot[..|keys|]
        invariant more.value == (|keys| < |snapshot|)
        decreases |snapshot| - |keys|
      {
        var current := Current();
        keys := keys + [current.value];
        more := MoveNext();
      }
      assert keys == snapshot;
      Dispose();
      r := Ok(());
    }
  }
}
