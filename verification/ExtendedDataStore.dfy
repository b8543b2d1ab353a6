/** The stored extended-data row and its update in place. */
module ExtendedDataStore {
  import opened Wrappers
  import opened Json
  import opened Presence
  import opened Text
  import opened ExtendedData

  /** compact_blank_recursively: builds the result entry by entry. */
  method CompactBlankRecursively(hash: Value) returns (result: Hash)
    requires hash.Obj?
    ensures result == CompactHash(hash.fields)
    decreases hash
  {
    result := map[];
    var left := hash.fields.Keys;
    while left != {}
      invariant left <= hash.fields.Keys
      invariant result == map k | k in hash.fields && k !in left && Kept(hash.fields[k]) :: Compact(hash.fields[k])
      decreases left
    {
      var key :| key in left;
      left := left - {key};
      var value := hash.fields[key];
      if !Blank(value) {
        var compacted := value;
        if value.Obj? {
          var inner := CompactBlankRecursively(value);
          compacted := Obj(inner);
        }
        result := result[key := compacted];
        if Blank(compacted) {
          result := result - {key};
        }
      }
    }
  }

  // What is stored

  /** A path of dots alone has no segments, so its last one is nil. The payload is put under nil, whole,
      and JSON writes that key as "", over any entry of that name. */
  function PutUnderNil(h: Hash, x: Value): Hash {
    var compacted := CompactHash(h);
    if Kept(x) then compacted["" := Compact(x)] else compacted
  }

  /** The tree an update leaves, for every path text. */
  function Stored(h: Hash, objectPath: string, x: Value): Result<Hash, Error> {
    if objectPath != "." && Segments(objectPath) == [] then Success(PutUnderNil(h, x))
    else Update(h, Segments(objectPath), x)
  }

  /** Whatever the path, what is stored has no blank entries. */
  lemma StoredHasNoBlanks(h: Hash, objectPath: string, x: Value)
    requires Stored(h, objectPath, x).Success?
    ensures NoBlanks(Obj(Stored(h, objectPath, x).value))
  {
    CompactLeavesNoBlanks(Obj(h));
    CompactLeavesNoBlanks(x);
    CompactOfHash(h);
    if objectPath == "." || Segments(objectPath) != [] {
      var m := Merge(h, Segments(objectPath), x).value;
      CompactLeavesNoBlanks(Obj(m));
      CompactOfHash(m);
    }
  }

  /** Under nil nothing is merged: the last present payload stands alone, and everything else is kept. */
  lemma PutUnderNilTwice(h: Hash, x: Value, y: Value)
    ensures PutUnderNil(PutUnderNil(h, x), y) == if Kept(y) then PutUnderNil(h, y) else PutUnderNil(h, x)
    ensures forall k | k != "" :: Child(PutUnderNil(h, x), k) == Cleared(Child(h, k))
  {
    var h' := PutUnderNil(h, x);
    assert CompactHash(h') == h' by {
      CompactLeavesNoBlanks(Obj(h));
      CompactLeavesNoBlanks(x);
      CompactOfHash(h);
      CompactFixesNoBlanks(Obj(h'));
    }
    forall k | k != "" ensures Child(h', k) == Cleared(Child(h, k)) {
      EntryOfCompact(h, k);
    }
  }

  // The row

  datatype UpdateError = ParameterMissing | Merging(error: Error) | TooLarge

  class ExtendedDataRow {
    var data: Hash

    constructor (data: Hash)
      ensures this.data == data
    {
      this.data := data;
    }

    /** The compaction of the tree with the payload under nil. */
    method PutCompacted(payload: Value) returns (compacted: Hash)
      ensures compacted == PutUnderNil(data, payload)
    {
      compacted := CompactBlankRecursively(Obj(data));
      if !Blank(payload) {
        var value := payload;
        if payload.Obj? {
          var inner := CompactBlankRecursively(payload);
          value := Obj(inner);
        }
        assert value == Compact(payload);
        if !Blank(value) {
          compacted := compacted["" := value];
        }
      }
    }

    /** resource_extended_data_update!: `size` is the byte size of the stored JSON, `max` its configured cap. */
    method ApplyUpdate(
      objectPath: string, payload: Value, size: Hash -> int, max: Option<int>
    ) returns (r: Result<Value, UpdateError>)
      modifies this
      ensures r.Failure? ==> data == old(data)
      ensures !Required(payload) || BlankText(objectPath) ==> r == Failure(ParameterMissing)
      ensures Required(payload) && !BlankText(objectPath) ==>
                match Stored(old(data), objectPath, payload)
                case Failure(e) => r == Failure(Merging(e))
                case Success(stored) =>
                  if max.Some? && max.value > 0 && size(stored) > max.value then r == Failure(TooLarge)
                  else data == stored && r == Success(Fetch(Obj(stored), Segments(objectPath)))
    {
      if !Required(payload) || BlankText(objectPath) {
        return Failure(ParameterMissing);
      }
      var path := Segments(objectPath);
      var compacted;
      if objectPath != "." && path == [] {
        compacted := PutCompacted(payload);
      } else {
        var merged := Merge(data, path, payload);
        if merged.Failure? {
          return Failure(Merging(merged.error));
        }
        compacted := CompactBlankRecursively(Obj(merged.value));
      }
      if max.Some? && max.value > 0 && size(compacted) > max.value {
        return Failure(TooLarge);
      }
      data := compacted;
      r := Success(Fetch(Obj(data), path));
    }
  }
}
