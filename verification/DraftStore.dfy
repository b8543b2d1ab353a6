/** The proposals table under the draft operations. */
module DraftStore {
  import opened Wrappers
  import opened Json
  import opened DraftProposals

  class DraftProposalsOperations {
    const limits: Limits
    var proposals: Proposals

    constructor (limits: Limits)
      ensures this.limits == limits && proposals == map[]
    {
      this.limits := limits;
      proposals := map[];
    }

    /** The failure that reports `r`, or the store `s` that holds its result. */
    ghost predicate Outcome(spec: Result<Proposals, Error>, was: Proposals, r: Result<(), Error>)
      reads this
    {
      match spec
      case Success(s) => r.Success? && proposals == s
      case Failure(e) => r == Failure(e) && proposals == was
    }

    method Create(r: Request, component: int, id: int) returns (result: Result<(), Error>)
      modifies this
      ensures Outcome(DraftProposals.Create(limits, old(proposals), r, component, id), old(proposals), result)
    {
      if !r.UserAllowed() {
        return Failure(BadRequest);
      }
      var me := r.user.value.id;
      if r.InContext(component) && exists d :: d in proposals && IsDraftOf(proposals[d], me, component) {
        ghost var d :| d in proposals && IsDraftOf(proposals[d], me, component);
        assert d in Drafts(proposals, me, component);
        return Failure(BadRequest);
      }
      if component !in r.visible {
        return Failure(RecordNotFound);
      }
      if LimitReached(limits, proposals, me, component) {
        return Failure(BadRequest);
      }
      assert r.InContext(component) ==> Drafts(proposals, me, component) == {};
      proposals := proposals[id := Proposal(component, {}, None, None, [], [])];
      proposals := proposals[id := proposals[id].(authors := proposals[id].authors + {me})];
      proposals := proposals[id := proposals[id].(client := Some(r.client))];
      assert proposals[id].authors == {me};
      assert proposals == old(proposals)[id := NewDraft(r, component)];
      result := Success(());
    }

    /** Collapses every field in memory, overlays the submitted ones, and saves once. */
    method Update(r: Request, id: int, payload: Payload, valid: bool) returns (result: Result<(), Error>)
      modifies this
      ensures Outcome(DraftProposals.Update(old(proposals), r, id, payload, valid), old(proposals), result)
    {
      if !r.UserAllowed() {
        return Failure(BadRequest);
      }
      if !IsDraftRecord(proposals, r, id) {
        return Failure(NotFound);
      }
      if payload == Payload(None, None) {
        return Success(());
      }
      var draft := proposals[id];
      draft := draft.(title := Collapse(draft.title, r.locale));
      draft := draft.(body := Collapse(draft.body, r.locale));
      if !valid {
        return Failure(BadRequest);
      }
      if payload.title.Some? {
        draft := draft.(title := [(r.locale, Str(payload.title.value))]);
      }
      if payload.body.Some? {
        draft := draft.(body := [(r.locale, Str(payload.body.value))]);
      }
      proposals := proposals[id := draft];
      result := Success(());
    }

    method Destroy(r: Request, id: int) returns (result: Result<(), Error>)
      modifies this
      ensures Outcome(DraftProposals.Destroy(old(proposals), r, id), old(proposals), result)
    {
      if !r.UserAllowed() {
        return Failure(BadRequest);
      }
      if !IsDraftRecord(proposals, r, id) {
        return Failure(NotFound);
      }
      proposals := proposals - {id};
      result := Success(());
    }

    method Publish(r: Request, id: int, valid: bool, now: int) returns (result: Result<(), Error>)
      modifies this
      ensures Outcome(DraftProposals.Publish(old(proposals), r, id, valid, now), old(proposals), result)
    {
      if !r.UserAllowed() {
        return Failure(BadRequest);
      }
      if !IsDraftRecord(proposals, r, id) {
        return Failure(NotFound);
      }
      if !valid {
        return Failure(BadRequest);
      }
      proposals := proposals[id := proposals[id].(publishedAt := Some(now))];
      result := Success(());
    }
  }
}
