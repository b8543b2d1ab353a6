/** Persisting a request and rebuilding its parameters in the worker. */
module ApiJobPayload {
  import opened Wrappers
  import opened Json
  import opened Presence
  import opened Text

  const PERMITTED: set<string> := {
    "id", "proposal_id", "object_path", "space_manifest", "space_id", "component_id",
    "manifest_name", "organization_id", "resource_type", "resource_id"
  }

  /** Path parameters the router adds for itself. */
  const ROUTING: set<string> := {"controller", "action", "format"}

  /** What `permit` lets through for a plain key. */
  predicate PermittedScalar(v: Value) {
    !v.Arr? && !v.Obj?
  }

  function Extras(params: Hash): Hash {
    map k | k in params && k in PERMITTED && PermittedScalar(params[k]) :: params[k]
  }

  /** permit! or to_unsafe_h: only hashes have them. None is NoMethodError. */
  function UnsafeHash(v: Value): Option<Value> {
    if v.Obj? then Some(v) else None
  }

  /** rest_full_api_job_payload. */
  function Payload(path: Hash, params: Hash): Option<Hash> {
    var data :- if "data" in params then UnsafeHash(params["data"]) else Some(EMPTY);
    var filter :- if "filter" in params && !Blank(params["filter"]) then UnsafeHash(params["filter"]) else Some(EMPTY);
    Some(map["path" := Obj((path - ROUTING) + Extras(params)), "data" := data, "filter" := filter])
  }

  /** params_from_job. */
  function ParamsFromJob(payload: Hash): Hash {
    var path := if "path" in payload && payload["path"].Obj? then payload["path"].fields else map[];
    var data := if "data" in payload && payload["data"].Obj? then payload["data"] else EMPTY;
    var merged := path["data" := data];
    if "filter" in payload && payload["filter"].Obj? then merged["filter" := payload["filter"]] else merged
  }

  /** ActionController::Parameters#require; None is ParameterMissing. */
  function Require(params: Hash, key: string): Option<Value> {
    if key in params && Required(params[key]) then Some(params[key]) else None
  }

  /** The value of a key when it is present. */
  function PresenceOf(params: Hash, key: string): Option<Value> {
    if key in params && !Blank(params[key]) then Some(params[key]) else None
  }

  /** Rails merges the path parameters into params, and they are text. */
  ghost predicate ControllerParams(path: Hash, params: Hash) {
    && (forall k | k in path :: k in params && params[k] == path[k] && path[k].Str?)
    && "data" !in path && "filter" !in path
  }

  /** A required parameter is the value itself, unless it is missing or the kind of value `require` refuses. */
  lemma RequireGives(params: Hash, key: string)
    ensures Require(params, key)
         == if key !in params || params[key] == Null then None
            else match params[key]
                 case Str(s) => (if exists i :: 0 <= i < |s| && !IsSpace(s[i]) then Some(params[key]) else None)
                 case Arr(items) => (if |items| > 0 then Some(params[key]) else None)
                 case Obj(fields) => (if fields == map[] then None else Some(params[key]))
                 case _ => Some(params[key])
  {
  }

  /** Whatever the stored payload, the worker's data is a hash, and so is a filter that comes from it. */
  lemma ReplayedDataIsHash(payload: Hash)
    ensures "data" in ParamsFromJob(payload) && ParamsFromJob(payload)["data"].Obj?
    ensures "filter" in payload && !payload["filter"].Obj? ==>
              ParamsFromJob(payload) == ParamsFromJob(payload - {"filter"})
  {
    KeyNames();
    var without := payload - {"filter"};
    assert "path" in payload <==> "path" in without;
    assert "data" in payload <==> "data" in without;
  }

  lemma KeyNames()
    ensures "data" !in PERMITTED && "filter" !in PERMITTED && "path" != "data" && "path" != "filter"
              && "data" != "filter"
  {
  }

  /** A request is persisted exactly when its data, and its filter if present, are hashes. */
  lemma PersistedIff(path: Hash, params: Hash)
    ensures Payload(path, params).Some?
       <==> && ("data" in params ==> params["data"].Obj?)
            && ("filter" in params && !Blank(params["filter"]) ==> params["filter"].Obj?)
  {
  }

  /** The ten keys permitted besides data and filter, and the router's own three. */
  lemma KeysByName(key: string)
    ensures key in PERMITTED
       <==> || key == "id" || key == "proposal_id" || key == "object_path" || key == "space_manifest"
            || key == "space_id" || key == "component_id" || key == "manifest_name"
            || key == "organization_id" || key == "resource_type" || key == "resource_id"
    ensures key in ROUTING <==> key == "controller" || key == "action" || key == "format"
  {
  }

  /** The rebuilt parameters: exactly which keys there are, and what they hold. */
  lemma ReplayedParams(path: Hash, params: Hash)
    requires ControllerParams(path, params) && Payload(path, params).Some?
    ensures var replay := ParamsFromJob(Payload(path, params).value);
            && replay.Keys == {"data", "filter"} + (path.Keys - ROUTING)
                              + (set k | k in params && k in PERMITTED && !params[k].Arr? && !params[k].Obj?)
            && (forall k | k in replay && k != "data" && k != "filter" :: k in params && replay[k] == params[k])
            && replay["data"] == (if "data" in params then params["data"] else EMPTY)
            && replay["filter"] == (if PresenceOf(params, "filter").Some? then params["filter"] else EMPTY)
  {
    KeyNames();
    var replay := ParamsFromJob(Payload(path, params).value);
    var merged := (path - ROUTING) + Extras(params);
    assert Payload(path, params).value["path"] == Obj(merged);
    assert replay.Keys == merged.Keys + {"data", "filter"};
  }

  /** Async refines sync: a handler that looks up a permitted key, or requires the data or the filter,
      gets from the replayed parameters what the direct call would have given it. */
  lemma AsyncRefinesSync(path: Hash, params: Hash, key: string)
    requires ControllerParams(path, params) && Payload(path, params).Some?
    ensures var replay := ParamsFromJob(Payload(path, params).value);
            && (key in PERMITTED && (key in params ==> PermittedScalar(params[key])) ==>
                  (key in replay <==> key in params) && Require(replay, key) == Require(params, key)
                  && (key in params ==> replay[key] == params[key]))
            && Require(replay, "data") == Require(params, "data")
            && PresenceOf(replay, "filter") == PresenceOf(params, "filter")
            && (key !in PERMITTED && key !in path && key != "data" && key != "filter" ==> key !in replay)
  {
    ReplayedParams(path, params);
    KeyNames();
  }
}
