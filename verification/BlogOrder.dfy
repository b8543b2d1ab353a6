/** The sorted blog collection, its previous and next ids, and its first and last ids. */
module BlogOrder {
  import opened Wrappers
  import Pagination

  datatype Post = Post(id: int, component: int, author: int, publishedAt: int)

  datatype Direction = Asc | Desc

  // Choosing the order

  datatype Order = Random | Column(name: string, direction: Direction)

  /** `order` and `order_direction` as given in the query; None is a BadRequest. The allowed list
      starts with the default direction, so "desc" passes as an order too. */
  function ChooseOrder(order: Option<string>, direction: Option<string>): Option<Order> {
    var name := order.GetOr("published_at");
    var dir := direction.GetOr("desc");
    if name != "desc" && name != "rand" && name != "published_at" then None
    else if name == "rand" then Some(Random)
    else if dir == "asc" then Some(Column(name, Asc))
    else if dir == "desc" then Some(Column(name, Desc))
    else None
  }

  // The collection

  /** Posts of visible components, published before now; the acting user's own future posts too. */
  predicate Listed(p: Post, visible: set<int>, component: Option<int>, now: int, actAs: Option<int>) {
    && p.component in visible
    && (component.Some? ==> p.component == component.value)
    && (if actAs.None? then p.publishedAt < now
        else p.publishedAt <= now || (p.publishedAt > now && p.author == actAs.value))
  }

  function Collection(
    posts: set<Post>, visible: set<int>, component: Option<int>, now: int, actAs: Option<int>
  ): set<Post> {
    set p | p in posts && Listed(p, visible, component, now, actAs)
  }

  /** "published_at <dir>, id asc" */
  predicate Before(dir: Direction, a: Post, b: Post) {
    if a.publishedAt == b.publishedAt then a.id < b.id
    else if dir == Asc then a.publishedAt < b.publishedAt
    else a.publishedAt > b.publishedAt
  }

  ghost predicate UniqueIds(rows: set<Post>) {
    forall a, b | a in rows && b in rows && a.id == b.id :: a == b
  }

  ghost predicate Sorted(dir: Direction, list: seq<Post>) {
    forall i, j | 0 <= i < j < |list| :: Before(dir, list[i], list[j])
  }

  /** What ORDER BY returns: the rows, each once, in order. */
  ghost predicate Ordered(dir: Direction, rows: set<Post>, list: seq<Post>) {
    && Sorted(dir, list)
    && (forall p :: p in list <==> p in rows)
    && UniqueIds(rows)
  }

  lemma {:induction false} LeastExists(dir: Direction, rows: set<Post>) returns (least: Post)
    requires rows != {} && UniqueIds(rows)
    ensures least in rows && forall p | p in rows :: p == least || Before(dir, least, p)
    decreases rows
  {
    var a :| a in rows;
    if rows == {a} {
      least := a;
    } else {
      var rest := rows - {a};
      assert rows == rest + {a};
      var b := LeastExists(dir, rest);
      least := if Before(dir, a, b) then a else b;
    }
  }

  /** Every set of posts has an ordering. */
  lemma {:induction false} OrderingExists(dir: Direction, rows: set<Post>) returns (list: seq<Post>)
    requires UniqueIds(rows)
    ensures Ordered(dir, rows, list)
    decreases rows
  {
    if rows == {} {
      list := [];
    } else {
      var least := LeastExists(dir, rows);
      var rest := OrderingExists(dir, rows - {least});
      list := [least] + rest;
      assert rows == rows - {least} + {least};
    }
  }

  /** And only one: the id tie-break leaves the database no choice. */
  lemma {:induction false} OrderingUnique(dir: Direction, rows: set<Post>, a: seq<Post>, b: seq<Post>)
    requires Ordered(dir, rows, a) && Ordered(dir, rows, b)
    ensures a == b
    decreases |a|
  {
    assert |b| > 0 ==> b[0] in b && b[0] in a;
    if a != [] {
      assert a[0] in a && a[0] in b;
      assert b[0] in b && b[0] in a;
      assert a[0] == b[0];
      var rest := rows - {a[0]};
      TailOrdered(dir, rows, a);
      TailOrdered(dir, rows, b);
      OrderingUnique(dir, rest, a[1..], b[1..]);
      assert a == [a[0]] + a[1..] && b == [b[0]] + b[1..];
    }
  }

  lemma TailOrdered(dir: Direction, rows: set<Post>, list: seq<Post>)
    requires Ordered(dir, rows, list) && list != []
    ensures Ordered(dir, rows - {list[0]}, list[1..])
  {
  }

  // LAG and LEAD

  function IndexOf(list: seq<Post>, id: int): (r: Option<nat>)
    ensures r.Some? ==> r.value < |list| && list[r.value].id == id
    ensures r.None? ==> forall p | p in list :: p.id != id
  {
    if list == [] then None
    else if list[0].id == id then Some(0)
    else
      match IndexOf(list[1..], id)
      case None => None
      case Some(i) => Some(i + 1)
  }

  datatype Match = Match(previousId: Option<int>, nextId: Option<int>)

  /** pagination_match: the neighbours' ids in the window over the sorted rows. */
  function PaginationMatch(list: seq<Post>, id: int): Option<Match> {
    match IndexOf(list, id)
    case None => None
    case Some(i) =>
      Some(Match(if i > 0 then Some(list[i - 1].id) else None,
                 if i + 1 < |list| then Some(list[i + 1].id) else None))
  }

  /** The next link of a post; none when the post is not in the collection. */
  function NextId(list: seq<Post>, id: int): Option<int> {
    match PaginationMatch(list, id) case None => None case Some(m) => m.nextId
  }

  function PreviousId(list: seq<Post>, id: int): Option<int> {
    match PaginationMatch(list, id) case None => None case Some(m) => m.previousId
  }

  lemma IndexInOrdering(dir: Direction, rows: set<Post>, list: seq<Post>, i: nat)
    requires Ordered(dir, rows, list) && i < |list|
    ensures IndexOf(list, list[i].id) == Some(i)
  {
  }

  /** The next link leads to the closest later post. */
  lemma NextIsSuccessor(dir: Direction, rows: set<Post>, list: seq<Post>, p: Post, q: Post)
    requires Ordered(dir, rows, list) && p in rows && q in rows
    ensures NextId(list, p.id) == Some(q.id)
       <==> Before(dir, p, q) && !exists r :: r in rows && Before(dir, p, r) && Before(dir, r, q)
  {
  }

  /** Only the last post has no next link. */
  lemma NextEndsAtLast(dir: Direction, rows: set<Post>, list: seq<Post>, p: Post)
    requires Ordered(dir, rows, list) && p in rows
    ensures NextId(list, p.id) == None <==> forall r | r in rows :: r == p || Before(dir, r, p)
  {
    var i :| 0 <= i < |list| && list[i] == p;
    IndexInOrdering(dir, rows, list, i);
    if i + 1 < |list| {
      assert list[i + 1] in rows && Before(dir, p, list[i + 1]);
    } else {
      forall r | r in rows ensures r == p || Before(dir, r, p) {
        var k :| 0 <= k < |list| && list[k] == r;
      }
    }
  }

  /** Prev undoes next, and next undoes prev. */
  lemma PreviousUndoesNext(dir: Direction, rows: set<Post>, list: seq<Post>, p: Post, q: Post)
    requires Ordered(dir, rows, list) && p in rows && q in rows
    ensures NextId(list, p.id) == Some(q.id) <==> PreviousId(list, q.id) == Some(p.id)
  {
  }

  // Walking

  /** The posts shown when next links are followed from an id, for at most `steps` links. */
  function Walk(list: seq<Post>, id: int, steps: nat): seq<Post>
    decreases steps
  {
    match IndexOf(list, id)
    case None => []
    case Some(i) =>
      [list[i]] +
      match NextId(list, id)
      case Some(next) => if steps == 0 then [] else Walk(list, next, steps - 1)
      case None => []
  }

  lemma NextAt(list: seq<Post>, i: nat)
    requires i < |list| && IndexOf(list, list[i].id) == Some(i)
    ensures NextId(list, list[i].id) == if i + 1 < |list| then Some(list[i + 1].id) else None
  {
    hide IndexOf;
  }

  lemma WalkStep(list: seq<Post>, i: nat, steps: nat)
    requires i < |list| && IndexOf(list, list[i].id) == Some(i) && steps >= |list| - i
    ensures Walk(list, list[i].id, steps)
         == [list[i]] + if i + 1 < |list| then Walk(list, list[i + 1].id, steps - 1) else []
  {
    hide IndexOf, NextId;
    NextAt(list, i);
  }

  /** From any post the walk visits the rest of the list, each post once, and then stops. */
  lemma {:induction false} WalkIsRest(dir: Direction, rows: set<Post>, list: seq<Post>, i: nat, steps: nat)
    requires Ordered(dir, rows, list) && i < |list| && steps >= |list| - i
    ensures Walk(list, list[i].id, steps) == list[i..]
    decreases steps
  {
    hide IndexOf, Ordered, Walk;
    IndexInOrdering(dir, rows, list, i);
    WalkStep(list, i, steps);
    if i + 1 < |list| {
      WalkIsRest(dir, rows, list, i + 1, steps - 1);
      assert list[i..] == [list[i]] + list[i + 1..];
    } else {
      assert list[i..] == [list[i]];
    }
  }

  /** From the head of the order the walk is the sorted list, and so are the index pages together. */
  lemma WalkEqualsPages(dir: Direction, rows: set<Post>, list: seq<Post>, rawPerPage: Option<int>)
    requires Ordered(dir, rows, list) && list != []
    ensures Walk(list, list[0].id, |list|)
         == Pagination.Concat(Pagination.Pages(list, Pagination.Link(1, Pagination.NormalizePerPage(rawPerPage))))
         == list
  {
    WalkIsRest(dir, rows, list, 0, |list|);
    Pagination.PagesAreWhole(list, rawPerPage);
  }

  /** On one snapshot, ordered by publication in either direction, following next links from the head
      shows exactly the listed posts, each once, and so do the index pages, for every page size. */
  lemma RequestWalkEqualsPages(
    posts: set<Post>, visible: set<int>, component: Option<int>, now: int, actAs: Option<int>,
    order: Option<string>, direction: Option<string>, dir: Direction, list: seq<Post>, rawPerPage: Option<int>
  )
    requires ChooseOrder(order, direction) == Some(Column("published_at", dir))
    requires Ordered(dir, Collection(posts, visible, component, now, actAs), list)
    requires list != []
    ensures var walk := Walk(list, list[0].id, |list|);
            && walk == Pagination.Concat(
                         Pagination.Pages(list, Pagination.Link(1, Pagination.NormalizePerPage(rawPerPage))))
            && (forall p :: p in walk <==> p in posts && Listed(p, visible, component, now, actAs))
            && forall i, j | 0 <= i < j < |walk| :: walk[i].id != walk[j].id
  {
    hide ChooseOrder;
    WalkEqualsPages(dir, Collection(posts, visible, component, now, actAs), list, rawPerPage);
    assert forall i | 0 <= i < |list| :: list[i] in list;
    forall i, j | 0 <= i < j < |list| ensures list[i].id != list[j].id {
      assert Before(dir, list[i], list[j]);
    }
  }

  /** What a request lists and in which order: posts of visible components, published before now, or when acting as
      a user published by now or later but by that user; newest first unless asked otherwise, ids ascending
      among posts of one moment. */
  lemma RequestListing(
    posts: set<Post>, visible: set<int>, component: Option<int>, now: int, actAs: Option<int>,
    order: Option<string>, direction: Option<string>, list: seq<Post>
  )
    requires order == None || order == Some("published_at")
    requires direction == None || direction == Some("desc") || direction == Some("asc")
    requires ChooseOrder(order, direction).Some? && ChooseOrder(order, direction).value.Column?
    requires var dir := ChooseOrder(order, direction).value.direction;
             Ordered(dir, Collection(posts, visible, component, now, actAs), list)
    ensures ChooseOrder(order, direction).value.name == "published_at"
    ensures forall i, j | 0 <= i < j < |list| ::
              var a, b := list[i], list[j];
              && (direction == Some("asc") ==> a.publishedAt <= b.publishedAt)
              && (direction != Some("asc") ==> a.publishedAt >= b.publishedAt)
              && (a.publishedAt == b.publishedAt ==> a.id < b.id)
    ensures forall p :: p in list <==>
              && p in posts && p.component in visible && (component == None || component == Some(p.component))
              && match actAs
                 case None => p.publishedAt < now
                 case Some(user) => p.publishedAt <= now || p.author == user
  {
    assert "asc" != "desc" by { assert |"asc"| == 3 && |"desc"| == 4; }
    forall i, j | 0 <= i < j < |list| ensures Before(ChooseOrder(order, direction).value.direction, list[i], list[j]) {
    }
  }

  /** Which orders are refused, and which are random. */
  lemma OrderAccepted(order: Option<string>, direction: Option<string>)
    ensures ChooseOrder(order, direction) == Some(Random) <==> order == Some("rand")
    ensures ChooseOrder(order, direction) == None
       <==> || (order.Some? && order.value != "rand" && order.value != "published_at" && order.value != "desc")
            || (order != Some("rand") && direction.Some? && direction.value != "asc" && direction.value != "desc")
  {
    assert |"rand"| == |"desc"| == 4 && "rand"[0] == 'r' && "desc"[0] == 'd' && |"published_at"| == 12;
  }

  // The first link

  /** collection_pagination_bounds: the least and greatest id, whatever the order. */
  ghost predicate IsFirst(rows: set<Post>, id: int) {
    (exists p :: p in rows && p.id == id) && forall p | p in rows :: id <= p.id
  }

  /** The walk from the first link covers the collection exactly when the oldest id heads the order. */
  lemma FirstLinkCoversIffHead(dir: Direction, rows: set<Post>, list: seq<Post>, first: int)
    requires Ordered(dir, rows, list) && IsFirst(rows, first)
    ensures (forall p | p in rows :: p in Walk(list, first, |list|))
       <==> forall p | p in rows :: p.id == first || forall q | q in rows && q.id == first :: Before(dir, q, p)
  {
    var f :| f in rows && f.id == first;
    var i :| 0 <= i < |list| && list[i] == f;
    WalkIsRest(dir, rows, list, i, |list|);
    if i == 0 {
      forall p | p in rows ensures p.id == first || Before(dir, f, p) {
        var k :| 0 <= k < |list| && list[k] == p;
      }
    } else {
      var h := list[0];
      assert h in list && h in rows && Before(dir, h, f);
      assert h !in list[i..] by {
        assert forall k | i <= k < |list| :: Before(dir, h, list[k]);
      }
    }
  }

  /** The failing input: newest first, the default, shows two posts but the first link starts at the last. */
  lemma FirstLinkMissesNewest()
    ensures var older, newer := Post(1, 1, 1, 10), Post(2, 1, 1, 20);
            && Ordered(Desc, {older, newer}, [newer, older]) && IsFirst({older, newer}, 1)
            && newer !in Walk([newer, older], 1, 2)
  {
  }
}
