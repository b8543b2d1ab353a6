/** The extended-data update against its documentation: a recursive merge that drops no existing key. */
module DocumentedMerge {
  import opened Wrappers
  import opened Json
  import opened ExtendedData

  /** Merging hash into hash at every depth, so that no existing key goes. */
  function DeepMerge(stored: Value, x: Value): Value
    decreases x
  {
    if stored.Obj? && x.Obj? then
      Obj(map k | k in stored.fields.Keys + x.fields.Keys ::
            if k !in x.fields then stored.fields[k]
            else if k in stored.fields then DeepMerge(stored.fields[k], x.fields[k])
            else x.fields[k])
    else x
  }

  /** The payload names every entry of the old value again that compaction keeps, at every depth where both are
      hashes. */
  predicate Repeats(stored: Value, x: Value)
    decreases x
  {
    stored.Obj? && x.Obj? ==>
      forall k | k in stored.fields ::
        if k in x.fields then Repeats(stored.fields[k], x.fields[k]) else !Kept(stored.fields[k])
  }

  lemma {:induction false} DeepMergeReplaces(stored: Value, x: Value)
    ensures Cleared(DeepMerge(stored, x)) == Cleared(x) <==> Repeats(stored, x)
    decreases x
  {
    hide Compact, Kept, CompactHash;
    if stored.Obj? && x.Obj? {
      var d := DeepMerge(stored, x).fields;
      HashIsCleared(d);
      HashIsCleared(x.fields);
      SameEntries(d, x.fields);
      forall k | k in stored.fields
        ensures Cleared(Child(d, k)) == Cleared(Child(x.fields, k))
           <==> if k in x.fields then Repeats(stored.fields[k], x.fields[k]) else !Kept(stored.fields[k])
      {
        if k in x.fields {
          DeepMergeReplaces(stored.fields[k], x.fields[k]);
        } else {
          ClearedIsEmpty(stored.fields[k]);
          ClearedIsEmpty(EMPTY);
        }
      }
      assert forall k | k !in stored.fields :: Child(d, k) == Child(x.fields, k);
    }
  }

  lemma ClearedIsEmpty(v: Value)
    ensures Cleared(v) == EMPTY <==> !Kept(v)
    ensures !Kept(EMPTY)
  {
  }

  /** The update the documentation describes: the recursive merge of the payload put at the path. */
  function DocumentedUpdate(h: Hash, p: Path, f: Hash): Result<Hash, Error> {
    Update(h, p, DeepMerge(Fetch(Obj(h), p), Obj(f)))
  }

  /** The update stores what is documented exactly when, wherever a payload hash meets an old hash
      below the path, it repeats every entry there that compaction would keep. */
  lemma UpdateIsRecursiveIffRepeated(h: Hash, p: Path, f: Hash)
    requires HashPath(h, p)
    ensures Update(h, p, Obj(f)).Success? && DocumentedUpdate(h, p, f).Success?
    ensures var e := Fetch(Obj(h), p);
            Update(h, p, Obj(f)) == DocumentedUpdate(h, p, f)
            <==> (e.Obj? ==> forall k | k in e.fields && k in f :: Repeats(e.fields[k], f[k]))
  {
    hide Compact, Kept, Cleared, CompactHash, Merge, Find;
    var e := Fetch(Obj(h), p);
    var d := DeepMerge(e, Obj(f));
    MergeSucceeds(h, p, Obj(f));
    MergeSucceeds(h, p, d);
    UpdateAlikeIff(h, p, Obj(f), d);
    if e.Obj? {
      var a, b := e.fields + f, e.fields + d.fields;
      assert Merged(Find(Obj(h), p), Obj(f)) == Obj(a) by { assert map[] + f == f; }
      assert Merged(Find(Obj(h), p), d) == Obj(b) by { assert map[] + d.fields == d.fields; }
      HashIsCleared(a);
      HashIsCleared(b);
      SameEntries(a, b);
      forall k
        ensures Cleared(Child(a, k)) == Cleared(Child(b, k))
           <==> (k in e.fields && k in f ==> Repeats(e.fields[k], f[k]))
      {
        if k in e.fields && k in f {
          DeepMergeReplaces(e.fields[k], f[k]);
        } else {
          assert Child(a, k) == Child(b, k);
        }
      }
    }
  }

  const STORED: Hash := map["address" := Obj(map["city" := Num(1), "zip" := Num(2)])]

  const PAYLOAD: Hash := map["address" := Obj(map["city" := Num(3)])]

  /** The failing input: a nested hash loses the key the payload does not repeat. */
  lemma UpdateDropsNestedKey()
    ensures Update(STORED, [], Obj(PAYLOAD)) == Success(PAYLOAD)
    ensures Update(STORED, [], Obj(PAYLOAD)) != DocumentedUpdate(STORED, [], PAYLOAD)
    ensures Fetch(Obj(STORED), ["address", "zip"]) == Num(2) && Fetch(Obj(PAYLOAD), ["address", "zip"]) == EMPTY
  {
    assert "zip" != "city" by { assert "zip"[0] == 'z' && "city"[0] == 'c'; }
    assert STORED + PAYLOAD == PAYLOAD;
    PayloadIsCompact();
    FetchBelow(STORED);
    FetchBelow(PAYLOAD);
    assert !Repeats(STORED["address"], PAYLOAD["address"]) by {
      assert "zip" in STORED["address"].fields && Kept(Num(2));
    }
    hide Compact, Kept, CompactHash, Repeats, DeepMerge, DocumentedUpdate;
    UpdateIsRecursiveIffRepeated(STORED, [], PAYLOAD);
    assert "address" in STORED && "address" in PAYLOAD;
  }

  lemma PayloadIsCompact()
    ensures CompactHash(PAYLOAD) == PAYLOAD
  {
    assert "city" in PAYLOAD["address"].fields;
    CompactFixesNoBlanks(Obj(PAYLOAD));
  }

  lemma FetchBelow(h: Hash)
    requires "address" in h && h["address"].Obj?
    ensures Fetch(Obj(h), ["address", "zip"]) == Child(h["address"].fields, "zip")
  {
    assert ["address", "zip"][1..] == ["zip"] && ["zip"][1..] == [];
  }
}
