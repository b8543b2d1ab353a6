/** Contributors to the fingerprint, and the clock that makes Last-Modified trustworthy. */
module LastModified {
  import opened Wrappers
  import opened Fingerprint

  type RecordId = int

  /** A registered extension; either procedure may be absent. */
  datatype Entry = Entry(
    extension: string, cacheTime: Option<RecordId -> Option<nat>>, etagSegment: Option<RecordId -> string>
  )

  /** The times the entries report for a record, absent ones dropped. */
  function Times(entries: seq<Entry>, record: RecordId): seq<nat> {
    if entries == [] then []
    else
      var rest := Times(entries[1..], record);
      if entries[0].cacheTime.Some? && entries[0].cacheTime.value(record).Some?
      then [entries[0].cacheTime.value(record).value] + rest
      else rest
  }

  function Segments(entries: seq<Entry>, record: RecordId): seq<string> {
    if entries == [] then []
    else
      (if entries[0].etagSegment.Some? then [entries[0].etagSegment.value(record)] else [])
      + Segments(entries[1..], record)
  }

  /** Array#max. */
  function Max(times: seq<nat>): (r: Option<nat>)
    ensures r.None? <==> times == []
    ensures r.Some? ==> r.value in times && forall t | t in times :: t <= r.value
  {
    if times == [] then None
    else
      assert times == [times[0]] + times[1..];
      match Max(times[1..])
      case None => Some(times[0])
      case Some(m) => Some(if m > times[0] then m else times[0])
  }

  /** [updated_at, contributors' maximum].compact.max */
  function LastModified(updatedAt: nat, contributed: Option<nat>): nat {
    if contributed.Some? && contributed.value > updatedAt then contributed.value else updatedAt
  }

  class FingerprintContributorRegistry {
    var entries: map<string, seq<Entry>>

    constructor ()
      ensures entries == map[]
    {
      entries := map[];
    }

    function EntriesFor(profile: string): seq<Entry>
      reads this
    {
      if profile in entries then entries[profile] else []
    }

    method Reset()
      modifies this
      ensures entries == map[]
    {
      entries := map[];
    }

    method Register(
      profile: string, extension: string,
      cacheTime: Option<RecordId -> Option<nat>>, etagSegment: Option<RecordId -> string>
    )
      modifies this
      ensures EntriesFor(profile) == old(EntriesFor(profile))
                + if cacheTime.None? && etagSegment.None? then [] else [Entry(extension, cacheTime, etagSegment)]
      ensures forall other | other != profile :: EntriesFor(other) == old(EntriesFor(other))
    {
      if cacheTime.None? && etagSegment.None? {
        return;
      }
      entries := entries[profile := EntriesFor(profile) + [Entry(extension, cacheTime, etagSegment)]];
    }
  }

  lemma {:induction false} TimesOfConcat(a: seq<Entry>, b: seq<Entry>, record: RecordId)
    ensures Times(a + b, record) == Times(a, record) + Times(b, record)
    decreases |a|
  {
    if a == [] {
      assert a + b == b;
    } else {
      assert (a + b)[1..] == a[1..] + b && (a + b)[0] == a[0];
      TimesOfConcat(a[1..], b, record);
    }
  }

  lemma {:induction false} SegmentsOfConcat(a: seq<Entry>, b: seq<Entry>, record: RecordId)
    ensures Segments(a + b, record) == Segments(a, record) + Segments(b, record)
    decreases |a|
  {
    if a == [] {
      assert a + b == b;
    } else {
      assert a + b == [a[0]] + (a[1..] + b) && a == [a[0]] + a[1..];
      SegmentsStep(a[0], a[1..] + b, record);
      SegmentsStep(a[0], a[1..], record);
      hide Segments;
      SegmentsOfConcat(a[1..], b, record);
    }
  }

  lemma SegmentsStep(e: Entry, rest: seq<Entry>, record: RecordId)
    ensures Segments([e] + rest, record)
         == (if e.etagSegment.Some? then [e.etagSegment.value(record)] else []) + Segments(rest, record)
  {
    assert ([e] + rest)[1..] == rest;
  }

  /** Registering only moves Last-Modified forward, and only adds segments at the end. */
  lemma RegisteringIsMonotone(entries: seq<Entry>, more: seq<Entry>, record: RecordId, updatedAt: nat)
    ensures LastModified(updatedAt, Max(Times(entries, record)))
         <= LastModified(updatedAt, Max(Times(entries + more, record)))
    ensures Segments(entries, record) <= Segments(entries + more, record)
  {
    TimesOfConcat(entries, more, record);
    SegmentsOfConcat(entries, more, record);
    var a, b := Times(entries, record), Times(entries + more, record);
    assert a != [] ==> Max(a).value in b;
  }

  /** The times are those the entries report. */
  lemma {:induction false} TimesReported(entries: seq<Entry>, record: RecordId, t: nat)
    ensures t in Times(entries, record) <==>
              exists e :: e in entries && e.cacheTime.Some? && e.cacheTime.value(record) == Some(t)
  {
    if entries != [] {
      TimesReported(entries[1..], record, t);
      assert entries == [entries[0]] + entries[1..];
    }
  }

  /** The segments are those the entries produce, in order. */
  lemma SegmentsReported(entries: seq<Entry>, record: RecordId, last: Entry)
    ensures Segments(entries + [last], record)
         == Segments(entries, record) + if last.etagSegment.Some? then [last.etagSegment.value(record)] else []
    ensures Segments([], record) == []
  {
    SegmentsOfConcat(entries, [last], record);
    assert [last][1..] == [];
  }

  /** Last-Modified is the latest of the record's own time and every time a contributor reports. */
  lemma LatestOfAll(entries: seq<Entry>, record: RecordId, updatedAt: nat)
    ensures var latest := LastModified(updatedAt, Max(Times(entries, record)));
            && updatedAt <= latest
            && (forall e, t | e in entries && e.cacheTime.Some? && e.cacheTime.value(record) == Some(t) :: t <= latest)
            && (latest == updatedAt
                || exists e :: e in entries && e.cacheTime.Some? && e.cacheTime.value(record) == Some(latest))
  {
    var times := Times(entries, record);
    forall t: nat
      ensures t in times <==> exists e :: e in entries && e.cacheTime.Some? && e.cacheTime.value(record) == Some(t)
    {
      TimesReported(entries, record, t);
    }
  }

  // Runs

  /** A record with its own timestamp, its extended data, and what contributors report now. */
  datatype State<Data> = State(clock: nat, updatedAt: nat, data: Data, contributed: Option<nat>)

  datatype Op<Data> = Tick | WriteRecord | WriteExtendedData(data: Data) | Contribute(times: Option<nat>)

  /** Every step takes time. A record write and a changing extended-data write (which touches
      its resource) stamp the record; contributors never report the future. */
  ghost predicate Step<Data(!new)>(s: State<Data>, op: Op<Data>, s': State<Data>) {
    && s'.clock > s.clock
    && match op
       case Tick => s' == s.(clock := s'.clock)
       case WriteRecord => s' == s.(clock := s'.clock, updatedAt := s'.clock)
       case WriteExtendedData(d) =>
         if d == s.data then s' == s.(clock := s'.clock)
         else s' == s.(clock := s'.clock, updatedAt := s'.clock, data := d)
       case Contribute(times) =>
         && s' == s.(clock := s'.clock, contributed := times)
         && (times.Some? ==> times.value <= s'.clock)
  }

  ghost predicate Changes<Data(!new)>(s: State<Data>, op: Op<Data>) {
    op.WriteRecord? || (op.WriteExtendedData? && op.data != s.data)
  }

  ghost predicate PastOnly<Data(!new)>(s: State<Data>) {
    s.updatedAt <= s.clock && (s.contributed.Some? ==> s.contributed.value <= s.clock)
  }

  ghost predicate Run<Data(!new)>(states: seq<State<Data>>, ops: seq<Op<Data>>) {
    && |states| == |ops| + 1
    && PastOnly(states[0])
    && forall i | 0 <= i < |ops| :: Step(states[i], ops[i], states[i + 1])
  }

  function Validator<Data>(s: State<Data>): nat {
    LastModified(s.updatedAt, s.contributed)
  }

  lemma {:induction false} RunPastOnly<Data(!new)>(states: seq<State<Data>>, ops: seq<Op<Data>>, k: nat)
    requires Run(states, ops) && k <= |ops|
    ensures PastOnly(states[k])
  {
    if k > 0 {
      RunPastOnly(states, ops, k - 1);
      assert Step(states[k - 1], ops[k - 1], states[k]);
    }
  }

  lemma {:induction false} StampsOnlyGrow<Data(!new)>(states: seq<State<Data>>, ops: seq<Op<Data>>, j: nat, k: nat)
    requires Run(states, ops) && j <= k <= |ops|
    ensures states[j].updatedAt <= states[k].updatedAt && states[j].clock <= states[k].clock
    decreases k - j
  {
    if j < k {
      StampsOnlyGrow(states, ops, j, k - 1);
      RunPastOnly(states, ops, k - 1);
      assert Step(states[k - 1], ops[k - 1], states[k]);
    }
  }

  /** A write in between leaves a later Last-Modified. */
  lemma WriteMovesValidator<Data(!new)>(states: seq<State<Data>>, ops: seq<Op<Data>>, i: nat, w: nat, j: nat)
    requires Run(states, ops) && i <= w < j <= |ops|
    requires Changes(states[w], ops[w])
    ensures Validator(states[i]) < Validator(states[j])
  {
    RunPastOnly(states, ops, i);
    StampsOnlyGrow(states, ops, i, w);
    StampsOnlyGrow(states, ops, w + 1, j);
    assert Step(states[w], ops[w], states[w + 1]);
  }

  /** Equal ETags at two moments of a run mean that nothing was written in between. */
  lemma EqualEtagsNoWrite<Data(!new)>(
    sha256: string -> string, states: seq<State<Data>>, ops: seq<Op<Data>>, i: nat, j: nat, a: Context, b: Context
  )
    requires forall x, y :: sha256(x) == sha256(y) ==> x == y
    requires Run(states, ops) && i <= j <= |ops|
    requires ValidContext(a) && ValidContext(b)
    requires a.lastModified == Validator(states[i]) && b.lastModified == Validator(states[j])
    requires Etag(sha256, a) == Etag(sha256, b)
    ensures forall w | i <= w < j :: !Changes(states[w], ops[w])
    ensures states[i].data == states[j].data && states[i].updatedAt == states[j].updatedAt
  {
    hide Etag;
    EtagDeterminesRequest(sha256, a, b);
    forall w | i <= w < j ensures !Changes(states[w], ops[w]) {
      if Changes(states[w], ops[w]) {
        WriteMovesValidator(states, ops, i, w, j);
      }
    }
    QuietKeepsData(states, ops, i, j);
  }

  lemma {:induction false} QuietKeepsData<Data(!new)>(states: seq<State<Data>>, ops: seq<Op<Data>>, i: nat, j: nat)
    requires Run(states, ops) && i <= j <= |ops|
    requires forall w | i <= w < j :: !Changes(states[w], ops[w])
    ensures states[i].data == states[j].data && states[i].updatedAt == states[j].updatedAt
    decreases j - i
  {
    if i < j {
      QuietKeepsData(states, ops, i, j - 1);
      assert Step(states[j - 1], ops[j - 1], states[j]);
    }
  }
}
