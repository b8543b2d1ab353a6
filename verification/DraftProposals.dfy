/** Draft proposals: created, updated, destroyed and published by API clients. */
module DraftProposals {
  import opened Wrappers
  import opened Json
  import opened Presence

  /** Locale and value, in stored order. */
  type Translations = seq<(string, Value)>

  datatype Proposal = Proposal(
    component: int,
    authors: set<int>,
    client: Option<int>,
    publishedAt: Option<int>,
    title: Translations,
    body: Translations
  )

  type Proposals = map<int, Proposal>

  datatype Error = BadRequest | NotFound | RecordNotFound

  /** A user; the acting user of a token that has one is that user. */
  datatype Actor = Actor(id: int, blocked: bool, locked: bool)

  /** Who asks: the components of visible spaces, and those of the space named by the
      space parameters, when there are any. */
  datatype Request = Request(
    user: Option<Actor>, client: int, visible: set<int>, space: Option<set<int>>, locale: string
  ) {
    predicate UserAllowed() {
      user.Some? && !user.value.blocked && !user.value.locked
    }

    /** filter_for_context. */
    predicate InContext(component: int) {
      component in visible && (space.Some? ==> component in space.value)
    }

    predicate SpaceMatches(component: int) {
      space.Some? ==> component in space.value
    }
  }

  /** proposal_limit of each component; zero means none. */
  type Limits = map<int, int>

  function LimitOf(limits: Limits, component: int): int {
    if component in limits then limits[component] else 0
  }

  // Translations

  function Lookup(t: Translations, locale: string): Value {
    if t == [] then Null else if t[0].0 == locale then t[0].1 else Lookup(t[1..], locale)
  }

  /** The first present value, or nil. */
  function FirstPresent(t: Translations): Value {
    if t == [] then Null else if !Blank(t[0].1) then t[0].1 else FirstPresent(t[1..])
  }

  /** move_translations_to_current_locale! for one field. */
  function Collapse(t: Translations, locale: string): Translations {
    var stored := if !Blank(Lookup(t, locale)) then Lookup(t, locale) else FirstPresent(t);
    if stored.Null? then [] else [(locale, stored)]
  }

  /** The stored value of a locale, at its first place, and nil where the locale has none. */
  lemma {:induction false} LookupIsFirst(t: Translations, locale: string)
    ensures Lookup(t, locale) == Null ||
              exists i :: 0 <= i < |t| && t[i] == (locale, Lookup(t, locale))
                          && forall j | 0 <= j < i :: t[j].0 != locale
    ensures forall i | 0 <= i < |t| && t[i].0 == locale && (forall j | 0 <= j < i :: t[j].0 != locale) ::
              Lookup(t, locale) == t[i].1
  {
    if t != [] && t[0].0 != locale {
      LookupIsFirst(t[1..], locale);
      assert forall i | 0 < i < |t| :: t[i] == t[1..][i - 1];
    }
  }

  /** The first value that is present in stored order, whatever its locale. */
  lemma {:induction false} FirstPresentIsFirst(t: Translations)
    ensures forall i | 0 <= i < |t| && !Blank(t[i].1) && (forall j | 0 <= j < i :: Blank(t[j].1)) ::
              FirstPresent(t) == t[i].1
    ensures (forall i | 0 <= i < |t| :: Blank(t[i].1)) ==> FirstPresent(t) == Null
  {
    if t != [] && Blank(t[0].1) {
      FirstPresentIsFirst(t[1..]);
      assert forall i | 0 < i < |t| :: t[i] == t[1..][i - 1];
    }
  }

  // Operations

  predicate IsDraftOf(p: Proposal, author: int, component: int) {
    p.publishedAt.None? && author in p.authors && p.component == component
  }

  predicate IsPublishedBy(p: Proposal, author: int, component: int) {
    p.publishedAt.Some? && author in p.authors && p.component == component
  }

  function Drafts(s: Proposals, author: int, component: int): set<int> {
    set id | id in s && IsDraftOf(s[id], author, component)
  }

  function Published(s: Proposals, author: int, component: int): set<int> {
    set id | id in s && IsPublishedBy(s[id], author, component)
  }

  /** limit_reached? */
  predicate LimitReached(limits: Limits, s: Proposals, author: int, component: int) {
    var limit := LimitOf(limits, component);
    limit != 0 && |Published(s, author, component)| >= limit
  }

  function NewDraft(r: Request, component: int): Proposal
    requires r.UserAllowed()
  {
    Proposal(component, {r.user.value.id}, Some(r.client), None, [], [])
  }

  /** create! with a new proposal id. */
  function Create(limits: Limits, s: Proposals, r: Request, component: int, id: int): Result<Proposals, Error> {
    if !r.UserAllowed() then Failure(BadRequest)
    else if r.InContext(component) && Drafts(s, r.user.value.id, component) != {} then Failure(BadRequest)
    else if component !in r.visible then Failure(RecordNotFound)
    else if LimitReached(limits, s, r.user.value.id, component) then Failure(BadRequest)
    else Success(s[id := NewDraft(r, component)])
  }

  /** draft_record: an unpublished proposal of the acting user, made by the same client. */
  predicate IsDraftRecord(s: Proposals, r: Request, id: int) {
    && id in s && r.user.Some?
    && s[id].publishedAt.None? && r.user.value.id in s[id].authors
    && s[id].client == Some(r.client) && r.InContext(s[id].component)
  }

  /** The allowed payload keys; `sanitized` text replaces a submitted field. */
  datatype Payload = Payload(title: Option<string>, body: Option<string>)

  function Overlay(t: Translations, locale: string, submitted: Option<string>): Translations {
    match submitted
    case Some(text) => [(locale, Str(text))]
    case None => Collapse(t, locale)
  }

  /** update!: `valid` tells whether the form has no error on a submitted field. */
  function Update(s: Proposals, r: Request, id: int, payload: Payload, valid: bool): Result<Proposals, Error> {
    if !r.UserAllowed() then Failure(BadRequest)
    else if !IsDraftRecord(s, r, id) then Failure(NotFound)
    else if payload == Payload(None, None) then Success(s)
    else if !valid then Failure(BadRequest)
    else
      Success(s[id := s[id].(title := Overlay(s[id].title, r.locale, payload.title),
                             body := Overlay(s[id].body, r.locale, payload.body))])
  }

  function Destroy(s: Proposals, r: Request, id: int): Result<Proposals, Error> {
    if !r.UserAllowed() then Failure(BadRequest)
    else if !IsDraftRecord(s, r, id) then Failure(NotFound)
    else Success(s - {id})
  }

  /** publish!: no limit is checked here. */
  function Publish(s: Proposals, r: Request, id: int, valid: bool, now: int): Result<Proposals, Error> {
    if !r.UserAllowed() then Failure(BadRequest)
    else if !IsDraftRecord(s, r, id) then Failure(NotFound)
    else if !valid then Failure(BadRequest)
    else Success(s[id := s[id].(publishedAt := Some(now))])
  }

  // Who may do what

  /** The asking user, present and neither blocked nor locked. */
  ghost predicate Acting(r: Request, author: int) {
    r.user.Some? && r.user.value.id == author && !r.user.value.blocked && !r.user.value.locked
  }

  /** A draft of the user made through the same client, in a component the user sees and, if the request names a
      space, of that space. */
  ghost predicate OwnDraft(s: Proposals, r: Request, id: int) {
    && id in s && s[id].publishedAt == None && s[id].client == Some(r.client)
    && (exists author :: Acting(r, author) && author in s[id].authors)
    && s[id].component in r.visible && (r.space == None || s[id].component in r.space.value)
  }

  /** An update, destroy or publish goes through exactly on one's own draft, if the form is valid where it counts;
      otherwise a user who may act is told that there is no such draft, or what is wrong. */
  lemma DraftOperationsSucceedIff(s: Proposals, r: Request, id: int, payload: Payload, valid: bool, now: int)
    ensures Update(s, r, id, payload, valid).Success?
       <==> OwnDraft(s, r, id) && (valid || (payload.title == None && payload.body == None))
    ensures Destroy(s, r, id).Success? <==> OwnDraft(s, r, id)
    ensures Publish(s, r, id, valid, now).Success? <==> OwnDraft(s, r, id) && valid
    ensures var missing := r.user.Some? && Acting(r, r.user.value.id) && !OwnDraft(s, r, id);
            && (Update(s, r, id, payload, valid) == Failure(NotFound) <==> missing)
            && (Destroy(s, r, id) == Failure(NotFound) <==> missing)
            && (Publish(s, r, id, valid, now) == Failure(NotFound) <==> missing)
    ensures Update(s, r, id, payload, valid) != Failure(RecordNotFound) && Destroy(s, r, id) != Failure(RecordNotFound)
            && Publish(s, r, id, valid, now) != Failure(RecordNotFound)
  {
    hide Overlay;
    assert IsDraftRecord(s, r, id) && r.UserAllowed() <==> OwnDraft(s, r, id) by {
      if IsDraftRecord(s, r, id) && r.UserAllowed() {
        assert Acting(r, r.user.value.id);
      }
    }
  }

  /** A create goes through exactly for a user who may act, in a component the user sees, without a draft of the
      user there (unless the request names another space) and below the limit; it stores an empty draft
      of the user, made through the client. */
  lemma CreateSucceedsIff(limits: Limits, s: Proposals, r: Request, component: int, id: int)
    ensures var limit := if component in limits then limits[component] else 0;
            var me := if r.user.Some? then r.user.value.id else 0;
            var mine := set d | d in s && me in s[d].authors && s[d].component == component;
            var matching := r.space == None || component in r.space.value;
            var free := matching ==> forall d | d in mine :: s[d].publishedAt.Some?;
            var visible := component in r.visible;
            var below := limit == 0 || |set d | d in mine && s[d].publishedAt.Some?| < limit;
            var result := Create(limits, s, r, component, id);
            && (result.Success? <==> r.user.Some? && Acting(r, me) && visible && free && below)
            && (result.Success? ==> result.value == s[id := Proposal(component, {me}, Some(r.client), None, [], [])])
            && (result == Failure(RecordNotFound) <==> r.user.Some? && Acting(r, me) && !visible)
            && result != Failure(NotFound)
  {
    if r.user.Some? {
      MineByComponent(s, r.user.value.id, component);
      hide Drafts, Published;
    }
  }

  lemma MineByComponent(s: Proposals, me: int, component: int)
    ensures var mine := set d | d in s && me in s[d].authors && s[d].component == component;
            && Published(s, me, component) == (set d | d in mine && s[d].publishedAt.Some?)
            && (Drafts(s, me, component) == {} <==> forall d | d in mine :: s[d].publishedAt.Some?)
  {
    var mine := set d | d in s && me in s[d].authors && s[d].component == component;
    forall d ensures d in Published(s, me, component) <==> d in mine && s[d].publishedAt.Some? {
    }
    forall d ensures d in Drafts(s, me, component) <==> d in mine && s[d].publishedAt.None? {
    }
    if forall d | d in mine :: s[d].publishedAt.Some? {
      assert Drafts(s, me, component) == {};
    }
    if Drafts(s, me, component) == {} {
      forall d | d in mine ensures s[d].publishedAt.Some? {
        assert d !in Drafts(s, me, component);
      }
    }
  }

  // Runs

  datatype Op =
    | CreateOp(request: Request, component: int, id: int)
    | UpdateOp(request: Request, id: int, payload: Payload, valid: bool)
    | DestroyOp(request: Request, id: int)
    | PublishOp(request: Request, id: int, valid: bool, now: int)

  function Apply(limits: Limits, s: Proposals, op: Op): Result<Proposals, Error> {
    match op
    case CreateOp(r, component, id) => Create(limits, s, r, component, id)
    case UpdateOp(r, id, payload, valid) => Update(s, r, id, payload, valid)
    case DestroyOp(r, id) => Destroy(s, r, id)
    case PublishOp(r, id, valid, now) => Publish(s, r, id, valid, now)
  }

  /** A failing operation stores nothing. */
  function Step(limits: Limits, s: Proposals, op: Op): Proposals {
    match Apply(limits, s, op)
    case Success(s') => s'
    case Failure(_) => s
  }

  /** New ids are new, and a create names no space but the component's own. */
  ghost predicate Legal(s: Proposals, op: Op) {
    op.CreateOp? ==> op.id !in s && op.request.SpaceMatches(op.component)
  }

  ghost predicate Run(limits: Limits, states: seq<Proposals>, ops: seq<Op>) {
    && |states| == |ops| + 1
    && forall i | 0 <= i < |ops| :: Legal(states[i], ops[i]) && states[i + 1] == Step(limits, states[i], ops[i])
  }

  /** A step changes or removes only a draft of its user made through its client, and touches no other proposal
      than its own. */
  lemma StepTouchesOwnDraft(limits: Limits, s: Proposals, op: Op, id: int)
    requires Legal(s, op) && id in s && (id !in Step(limits, s, op) || Step(limits, s, op)[id] != s[id])
    ensures id == op.id && !op.CreateOp? && s[id].publishedAt == None
    ensures op.request.user.Some? && op.request.user.value.id in s[id].authors
    ensures s[id].client == Some(op.request.client)
    ensures s[id].component in op.request.visible
    ensures op.DestroyOp? <==> id !in Step(limits, s, op)
    ensures op.PublishOp? ==> Step(limits, s, op)[id] == s[id].(publishedAt := Some(op.now))
    ensures op.UpdateOp? ==>
              var p := Step(limits, s, op)[id];
              p == s[id].(title := p.title, body := p.body)
  {
    hide Overlay;
  }

  // The one-draft rule and the limit

  ghost predicate OneDraft(s: Proposals) {
    forall author, component :: |Drafts(s, author, component)| <= 1
  }

  ghost predicate WithinLimit(limits: Limits, s: Proposals) {
    forall author, component | LimitOf(limits, component) > 0 ::
      |Published(s, author, component)| + |Drafts(s, author, component)| <= LimitOf(limits, component)
  }

  lemma SmallerSet<T>(a: set<T>, b: set<T>)
    requires a <= b
    ensures |a| <= |b|
  {
    assert b == a + (b - a);
  }

  lemma CreateCounts(limits: Limits, s: Proposals, r: Request, component: int, id: int, author: int, other: int)
    requires Create(limits, s, r, component, id).Success? && id !in s && r.SpaceMatches(component)
    ensures var s' := Create(limits, s, r, component, id).value;
            && Published(s', author, other) == Published(s, author, other)
            && (if author == r.user.value.id && other == component
                then Drafts(s', author, other) == {id} && !LimitReached(limits, s, author, component)
                else Drafts(s', author, other) == Drafts(s, author, other))
  {
  }

  lemma PublishCounts(s: Proposals, r: Request, id: int, valid: bool, now: int, author: int, other: int)
    requires Publish(s, r, id, valid, now).Success?
    ensures var s' := Publish(s, r, id, valid, now).value;
            if author in s[id].authors && other == s[id].component
            then && id in Drafts(s, author, other) && id !in Published(s, author, other)
                 && Drafts(s', author, other) == Drafts(s, author, other) - {id}
                 && Published(s', author, other) == Published(s, author, other) + {id}
            else && Drafts(s', author, other) == Drafts(s, author, other)
                 && Published(s', author, other) == Published(s, author, other)
  {
  }

  lemma StepCounts(limits: Limits, s: Proposals, op: Op, author: int, component: int)
    requires Legal(s, op)
    requires |Drafts(s, author, component)| <= 1
    requires LimitOf(limits, component) > 0 ==>
              |Published(s, author, component)| + |Drafts(s, author, component)| <= LimitOf(limits, component)
    ensures var s' := Step(limits, s, op);
            && |Drafts(s', author, component)| <= 1
            && (LimitOf(limits, component) > 0 ==>
                  |Published(s', author, component)| + |Drafts(s', author, component)| <= LimitOf(limits, component))
  {
    var s' := Step(limits, s, op);
    if Apply(limits, s, op).Success? {
      match op
      case CreateOp(r, target, id) =>
        hide Create, Drafts, Published;
        CreateCounts(limits, s, r, target, id, author, component);
      case PublishOp(r, id, valid, now) =>
        hide Publish, Drafts, Published;
        PublishCounts(s, r, id, valid, now, author, component);
      case UpdateOp(r, id, payload, valid) =>
        assert Drafts(s', author, component) == Drafts(s, author, component);
        assert Published(s', author, component) == Published(s, author, component);
      case DestroyOp(r, id) =>
        SmallerSet(Drafts(s', author, component), Drafts(s, author, component));
        assert Published(s', author, component) == Published(s, author, component);
    }
  }

  /** Over every run each author keeps at most one draft per component, and published proposals
      and drafts together stay within the limit. */
  lemma {:induction false} RunWithinLimit(limits: Limits, states: seq<Proposals>, ops: seq<Op>, k: nat)
    requires Run(limits, states, ops) && k <= |ops|
    requires OneDraft(states[0]) && WithinLimit(limits, states[0])
    ensures OneDraft(states[k]) && WithinLimit(limits, states[k])
  {
    if k > 0 {
      RunWithinLimit(limits, states, ops, k - 1);
      hide Drafts, Published, Step, Legal;
      forall author: int, component: int
        ensures |Drafts(states[k], author, component)| <= 1
        ensures LimitOf(limits, component) > 0 ==>
                  |Published(states[k], author, component)| + |Drafts(states[k], author, component)|
                  <= LimitOf(limits, component)
      {
        StepCounts(limits, states[k - 1], ops[k - 1], author, component);
      }
    }
  }

  ghost predicate CreateKeepsOneDraft(limits: Limits, r: Request, component: int, id: int) {
    forall s: Proposals | OneDraft(s) && WithinLimit(limits, s) && id !in s
        && Create(limits, s, r, component, id).Success? ::
      OneDraft(Create(limits, s, r, component, id).value)
  }

  /** A request that may create at all keeps the one-draft rule in every store exactly when
      its space parameters are absent or name the component's space. */
  lemma OneDraftIffSpaceMatches(limits: Limits, r: Request, component: int, id: int)
    requires r.UserAllowed() && component in r.visible && LimitOf(limits, component) >= 0
    ensures CreateKeepsOneDraft(limits, r, component, id) <==> r.SpaceMatches(component)
  {
    if r.SpaceMatches(component) {
      forall s: Proposals | OneDraft(s) && id !in s && Create(limits, s, r, component, id).Success?
        ensures OneDraft(Create(limits, s, r, component, id).value)
      {
        forall author: int, other: int ensures |Drafts(Create(limits, s, r, component, id).value, author, other)| <= 1 {
          CreateCounts(limits, s, r, component, id, author, other);
        }
      }
    } else {
      SecondDraft(limits, r, component, id);
    }
  }

  /** With another space named, the existing draft is not seen and a second one is created. */
  lemma SecondDraft(limits: Limits, r: Request, component: int, id: int)
    requires r.UserAllowed() && component in r.visible && !r.SpaceMatches(component) && LimitOf(limits, component) >= 0
    ensures !CreateKeepsOneDraft(limits, r, component, id)
  {
    var me := r.user.value.id;
    var s: Proposals := map[id + 1 := NewDraft(r, component)];
    forall author: int, other: int
      ensures Drafts(s, author, other) == (if author == me && other == component then {id + 1} else {})
      ensures Published(s, author, other) == {}
    {
    }
    assert Create(limits, s, r, component, id).Success?;
    var s' := Create(limits, s, r, component, id).value;
    assert Drafts(s', me, component) == {id, id + 1};
    assert !OneDraft(s');
  }

  // Texts

  ghost predicate OneLocale(p: Proposal) {
    |p.title| <= 1 && |p.body| <= 1
  }

  lemma CollapseKeepsText(t: Translations, locale: string)
    requires |t| <= 1
    ensures |Collapse(t, locale)| <= 1 && FirstPresent(Collapse(t, locale)) == FirstPresent(t)
  {
    if |t| == 1 {
      assert t[1..] == [];
      assert Lookup(t, locale) == if t[0].0 == locale then t[0].1 else Null;
    }
  }

  ghost predicate Submits(op: Op, id: int, title: bool) {
    op.UpdateOp? && op.id == id && (if title then op.payload.title.Some? else op.payload.body.Some?)
  }

  function Field(p: Proposal, title: bool): Translations {
    if title then p.title else p.body
  }

  lemma StepKeepsText(limits: Limits, s: Proposals, op: Op, id: int, title: bool)
    requires Legal(s, op) && id in s && OneLocale(s[id]) && !Submits(op, id, title)
    ensures id in Step(limits, s, op) ==>
              var p := Step(limits, s, op)[id];
              OneLocale(p) && FirstPresent(Field(p, title)) == FirstPresent(Field(s[id], title))
  {
    if op.UpdateOp? && op.id == id {
      hide Collapse, FirstPresent;
      CollapseKeepsText(s[id].title, op.request.locale);
      CollapseKeepsText(s[id].body, op.request.locale);
    }
  }

  /** Once a draft has one locale per field, a field's text survives every further operation that
      does not submit that field, in whatever locales they are made. */
  lemma {:induction false} TextSurvives(
    limits: Limits, states: seq<Proposals>, ops: seq<Op>, j: nat, k: nat, id: int, title: bool
  )
    requires Run(limits, states, ops) && j <= k <= |ops|
    requires forall i | j <= i <= k :: id in states[i]
    requires OneLocale(states[j][id])
    requires forall i | j <= i < k :: !Submits(ops[i], id, title)
    ensures OneLocale(states[k][id])
    ensures FirstPresent(Field(states[k][id], title)) == FirstPresent(Field(states[j][id], title))
    decreases k - j
  {
    if j < k {
      TextSurvives(limits, states, ops, j, k - 1, id, title);
      StepKeepsText(limits, states[k - 1], ops[k - 1], id, title);
    }
  }

  /** The text an update leaves in a field: what was submitted if present, else what the field showed before. */
  function TextAfter(t: Translations, locale: string, submitted: Option<string>): Value {
    match submitted
    case Some(text) => if Blank(Str(text)) then Null else Str(text)
    case None => if !Blank(Lookup(t, locale)) then Lookup(t, locale) else FirstPresent(t)
  }

  lemma {:induction false} FirstPresentIsPresent(t: Translations)
    ensures FirstPresent(t).Null? || !Blank(FirstPresent(t))
  {
    if t != [] {
      FirstPresentIsPresent(t[1..]);
    }
  }

  lemma OverlayText(t: Translations, locale: string, submitted: Option<string>)
    ensures |Overlay(t, locale, submitted)| <= 1
    ensures FirstPresent(Overlay(t, locale, submitted)) == TextAfter(t, locale, submitted)
  {
    FirstPresentIsPresent(t);
    var o := Overlay(t, locale, submitted);
    if o != [] {
      assert FirstPresent(o) == if !Blank(o[0].1) then o[0].1 else FirstPresent([]);
    }
  }

  /** From the first update on a field holds at most one locale, and its text is the one submitted last, or
      the one it showed before, until it is submitted again: after any further operations in any locales. */
  lemma UpdatedTextStays(
    limits: Limits, states: seq<Proposals>, ops: seq<Op>, j: nat, k: nat, id: int, title: bool
  )
    requires Run(limits, states, ops) && j < k <= |ops|
    requires forall i | j <= i <= k :: id in states[i]
    requires ops[j].UpdateOp? && ops[j].id == id && ops[j].payload != Payload(None, None)
    requires Apply(limits, states[j], ops[j]).Success?
    requires forall i | j < i < k :: !Submits(ops[i], id, title)
    ensures OneLocale(states[k][id])
    ensures var p := states[j + 1][id];
            && (forall entry | entry in p.title + p.body :: entry.0 == ops[j].request.locale && entry.1 != Null)
            && p == states[j][id].(title := p.title, body := p.body)
    ensures var submitted := if title then ops[j].payload.title else ops[j].payload.body;
            FirstPresent(Field(states[k][id], title))
              == TextAfter(Field(states[j][id], title), ops[j].request.locale, submitted)
  {
    var locale, payload := ops[j].request.locale, ops[j].payload;
    OverlayText(states[j][id].title, locale, payload.title);
    OverlayText(states[j][id].body, locale, payload.body);
    assert Legal(states[j], ops[j]) && states[j + 1] == Step(limits, states[j], ops[j]);
    hide Overlay, FirstPresent, TextAfter, Legal;
    TextSurvives(limits, states, ops, j + 1, k, id, title);
  }

  // Publication is final

  lemma StepKeepsPublished(limits: Limits, s: Proposals, op: Op, id: int)
    requires Legal(s, op) && id in s && s[id].publishedAt.Some?
    ensures id in Step(limits, s, op) && Step(limits, s, op)[id] == s[id]
    ensures !op.CreateOp? && op.id == id ==> Apply(limits, s, op).Failure?
  {
  }

  /** A published proposal is never changed, destroyed or found by a draft operation again. */
  lemma {:induction false} PublishedStays(limits: Limits, states: seq<Proposals>, ops: seq<Op>, j: nat, k: nat, id: int)
    requires Run(limits, states, ops) && j <= k <= |ops|
    requires id in states[j] && states[j][id].publishedAt.Some?
    ensures id in states[k] && states[k][id] == states[j][id]
    ensures k < |ops| && !ops[k].CreateOp? && ops[k].id == id ==> Apply(limits, states[k], ops[k]).Failure?
    decreases k - j
  {
    if j < k {
      PublishedStays(limits, states, ops, j, k - 1, id);
      StepKeepsPublished(limits, states[k - 1], ops[k - 1], id);
    }
    if k < |ops| {
      StepKeepsPublished(limits, states[k], ops[k], id);
    }
  }
}
