/** Extended-data updates whose path may lead into a string: where put-get, early compaction and commuting
    hold for every update that succeeds, and where they fail. */
module StringPaths {
  import opened Wrappers
  import opened Json
  import opened Presence
  import opened Text
  import opened ExtendedData

  // Where put-get fails

  function Parent(p: Path): Path
    requires p != []
  {
    p[..|p| - 1]
  }

  /** The text a path into a string changes. */
  function TextAt(h: Hash, p: Path): string {
    if p != [] && Fetch(Obj(h), Parent(p)).Str? then Fetch(Obj(h), Parent(p)).s else ""
  }

  /** That text with the path's last segment replaced inside it. */
  function Replaced(h: Hash, p: Path, x: Value): Value {
    if p != [] && AssignInside(Str(TextAt(h, p)), p[|p| - 1], x).Success?
    then AssignInside(Str(TextAt(h, p)), p[|p| - 1], x).value
    else x
  }

  /** Off a hash path the only merge that succeeds replaces text inside the string that is the path's
      parent: it is a merge of the new text at the parent. */
  lemma {:induction false} MergeOffHashPath(h: Hash, p: Path, x: Value)
    requires !HashPath(h, p) && Merge(h, p, x).Success?
    ensures x.Str? && |p| >= 2 && HashPath(h, Parent(p)) && Replaced(h, p, x).Str?
    ensures AssignInside(Str(TextAt(h, p)), p[|p| - 1], x) == Success(Replaced(h, p, x))
    ensures Find(Obj(h), Parent(p)) == Some(Str(TextAt(h, p)))
    ensures Merge(h, p, x) == Merge(h, Parent(p), Replaced(h, p, x))
    ensures Find(Obj(h), p) == None && Find(Obj(Merge(h, p, x).value), p) == None
    decreases |p|
  {
    var child := Child(h, p[0]);
    assert Parent(p)[1..] == Parent(p[1..]);
    if child.Obj? {
      MergeOffHashPath(child.fields, p[1..], x);
      assert Find(Obj(h), Parent(p)) == Find(child, Parent(p[1..]));
    } else {
      assert p[1..] != [] && Find(child, p[1..]) == None;
      assert Parent(p) == [p[0]] && Find(Obj(h), [p[0]]) == Find(child, []);
    }
  }

  /** A hash payload is stored exactly along hash paths, so what is said of those holds for every
      successful update with a hash. */
  lemma HashPayloadSucceedsIff(h: Hash, p: Path, f: Hash)
    ensures Update(h, p, Obj(f)).Success? <==> HashPath(h, p)
  {
    if HashPath(h, p) {
      MergeSucceeds(h, p, Obj(f));
    } else if Merge(h, p, Obj(f)).Success? {
      MergeOffHashPath(h, p, Obj(f));
    }
  }

  /** A successful update reads back exactly when its path runs through hashes only, or a blank was put. */
  lemma PutGetIffHashPath(h: Hash, p: Path, x: Value)
    requires Update(h, p, x).Success?
    ensures Fetch(Obj(Update(h, p, x).value), p) == Cleared(Merged(Find(Obj(h), p), x)) <==> HashPath(h, p) || Blank(x)
  {
    hide Merge;
    if HashPath(h, p) {
      PutGet(h, p, x);
    } else {
      var m := Merge(h, p, x).value;
      MergeOffHashPath(h, p, x);
      FetchCompact(Obj(m), p);
      CompactOfHash(m);
      assert Fetch(Obj(m), p) == EMPTY && Cleared(EMPTY) == EMPTY;
      assert Compact(x) == x;
    }
  }

  lemma AssignInHello()
    ensures AssignInside(Str("hello"), "ell", Str("X")) == Success(Str("hXo"))
  {
    assert "hello"[1..] == "ello" && "hello"[0] != "ell"[0];
    assert "ell" <= "ello" && FindText("ello", "ell") == Some(0);
    AssignAt("hello", "ell", 1, "X");
    assert Splice("hello", 1, 3, "X") == "hXo";
  }

  lemma PresentTexts()
    ensures !BlankText("hXo") && !BlankText("X")
  {
    assert "hXo"[0] == 'h' && "X"[0] == 'X';
  }

  /** The failing input: text under "a", and a path into it. */
  lemma PutGetFailsInsideText()
    ensures var h: Hash := map["a" := Str("hello")]; var p := ["a", "ell"];
            && Update(h, p, Str("X")).Success? && Update(h, p, Str("X")).value == map["a" := Str("hXo")]
            && Fetch(Obj(Update(h, p, Str("X")).value), p) != Cleared(Merged(Find(Obj(h), p), Str("X")))
  {
    hide Update, AssignInside, BlankText, Cleared, Merged;
    AssignInHello();
    assert !BlankText("hXo") && !BlankText("X") by { PresentTexts(); }
    UpdateText("a", "hello", "ell", "X", "hXo");
    PutGetIffHashPath(map["a" := Str("hello")], ["a", "ell"], Str("X"));
  }

  // Early compaction and commuting, for every update that succeeds

  lemma {:induction false} PathPrefix(h: Hash, p: Path, q: Path)
    requires HashPath(h, q) && p <= q
    ensures HashPath(h, p)
    decreases |p|
  {
    if |p| >= 2 && p[0] in h {
      PathPrefix(h[p[0]].fields, p[1..], q[1..]);
    }
  }

  lemma {:induction false} ParentPath(h: Hash, p: Path)
    requires |p| >= 2
    ensures var parent := Find(Obj(h), Parent(p));
            HashPath(h, p) <==> HashPath(h, Parent(p)) && (parent.Some? ==> parent.value.Obj?)
    decreases |p|
  {
    if |p| == 2 {
      assert Parent(p) == [p[0]] && [p[0]][1..] == [];
    } else if p[0] in h && h[p[0]].Obj? {
      assert Parent(p)[1..] == Parent(p[1..]);
      ParentPath(h[p[0]].fields, p[1..]);
    }
  }

  /** Where an update puts its value, and which value that is. */
  function Where(h: Hash, p: Path): Path {
    if HashPath(h, p) then p else Parent(p)
  }

  function What(h: Hash, p: Path, x: Value): Value {
    if HashPath(h, p) then x else Replaced(h, p, x)
  }

  lemma MergeWhere(h: Hash, p: Path, x: Value)
    requires Merge(h, p, x).Success?
    ensures HashPath(h, Where(h, p)) && Merge(h, p, x) == Merge(h, Where(h, p), What(h, p, x))
  {
    if !HashPath(h, p) {
      MergeOffHashPath(h, p, x);
    }
  }

  /** Both paths lead into one string. */
  ghost predicate InOneString(h: Hash, p: Path, q: Path) {
    !HashPath(h, p) && !HashPath(h, q) && Parent(p) == Parent(q)
  }

  lemma PathThrough(h: Hash, p: Path, q: Path)
    requires HashPath(h, q) && p <= q && p != [] && p != q && Find(Obj(h), p).Some?
    ensures Find(Obj(h), p).value.Obj?
  {
    var longer := q[..|p| + 1];
    PathPrefix(h, longer, q);
    assert Parent(longer) == p;
    ParentPath(h, longer);
  }

  lemma WhereApart(h: Hash, p: Path, x: Value, q: Path, y: Value)
    requires Incomparable(p, q) && !InOneString(h, p, q)
    requires Merge(h, p, x).Success? && Merge(h, q, y).Success?
    ensures Incomparable(q, Where(h, p)) && Incomparable(Where(h, p), Where(h, q))
  {
    MergeWhere(h, p, x);
    MergeWhere(h, q, y);
    var a, b := Where(h, p), Where(h, q);
    assert a <= p && b <= q;
    if !HashPath(h, p) {
      MergeOffHashPath(h, p, x);
    }
    if !HashPath(h, q) {
      MergeOffHashPath(h, q, y);
    }
    if a <= b && a != b {
      PathThrough(h, a, b);
    }
    if b <= a && a != b {
      PathThrough(h, b, a);
    }
  }

  /** Stored text that compaction would drop makes way for a hash; nothing is lost if what was to go
      into it is blank as well. */
  predicate Lasting(h: Hash, p: Path, x: Value) {
    HashPath(h, p) || !BlankText(TextAt(h, p)) || Blank(x)
  }

  /** Where the old tree holds a hash path or text that lasts, an update does in a later tree what it does now. */
  lemma SameLater(h: Hash, p: Path, x: Value, later: Hash)
    requires Merge(h, p, x).Success? && (HashPath(h, p) || !BlankText(TextAt(h, p)))
    requires HashPath(later, Where(h, p)) && Merge(later, p, x).Success?
    requires !HashPath(h, p) ==> Fetch(Obj(later), Parent(p)) == Fetch(Obj(CompactHash(h)), Parent(p))
    ensures Merge(later, p, x) == Merge(later, Where(h, p), What(h, p, x))
  {
    hide Compact, CompactHash, Merge, Find;
    if !HashPath(h, p) {
      MergeOffHashPath(h, p, x);
      FetchCompact(Obj(h), Parent(p));
      CompactOfHash(h);
      var t := TextAt(h, p);
      ClearedText(t);
      assert Find(Obj(later), Parent(p)) == Some(Str(t));
      ParentPath(later, p);
      MergeOffHashPath(later, p, x);
    }
  }

  /** Putting something blank where nothing, or something blank, was. */
  lemma {:induction false} BlankPut(h: Hash, p: Path, x: Value)
    requires p != [] && HashPath(h, p) && Merge(h, p, x).Success?
    requires !Kept(Merged(Find(Obj(h), p), x)) && Cleared(Fetch(Obj(h), p)) == EMPTY
    ensures SameCompacted(Merge(h, p, x).value, h)
    decreases |p|
  {
    if |p| == 1 {
      assert p[1..] == [];
      PutOnEntry(h, p[0], Merged(Find(Obj(h), p), x));
    } else {
      hide Compact, Kept, CompactHash, Merge;
      var child := Child(h, p[0]);
      MergeStep(h, p, x);
      FetchEmpty(p[1..]);
      assert Fetch(Obj(h), p) == Fetch(child, p[1..]) && Find(EMPTY, p[1..]) == None;
      BlankPut(child.fields, p[1..], x);
      var m := Merge(child.fields, p[1..], x).value;
      HashIsCleared(m);
      HashIsCleared(child.fields);
      PutOnEntry(h, p[0], Obj(m));
    }
  }

  lemma PutOnEntry(h: Hash, k: string, v: Value)
    requires Cleared(v) == Cleared(Child(h, k))
    ensures SameCompacted(h[k := v], h)
  {
    SameEntries(h[k := v], h);
  }

  /** A blank put into blank text, now or after the text was dropped, leaves no trace. */
  lemma BlankLeavesNoTrace(h: Hash, p: Path, x: Value, later: Hash)
    requires !HashPath(h, p) && BlankText(TextAt(h, p)) && Blank(x)
    requires Merge(h, p, x).Success? && Merge(later, p, x).Success?
    requires CompactHash(later) == later && HashPath(later, Parent(p)) && Fetch(Obj(later), Parent(p)) == EMPTY
    ensures Update(h, p, x) == Success(CompactHash(h)) && Update(later, p, x) == Success(later)
  {
    MergeOffHashPath(h, p, x);
    BlankReplaced(TextAt(h, p), p[|p| - 1], x);
    BlankPut(h, Parent(p), Replaced(h, p, x));
    EmptyParent(later, p);
    BlankPut(later, p, x);
  }

  lemma BlankReplaced(t: string, key: string, x: Value)
    requires BlankText(t) && Blank(x) && AssignInside(Str(t), key, x).Success?
    ensures Blank(AssignInside(Str(t), key, x).value)
  {
  }

  lemma EmptyParent(h: Hash, p: Path)
    requires |p| >= 2 && HashPath(h, Parent(p)) && Fetch(Obj(h), Parent(p)) == EMPTY
    ensures HashPath(h, p) && Find(Obj(h), p) == None
  {
    ParentPath(h, p);
    assert p == Parent(p) + [p[|p| - 1]];
    FindExtended(Obj(h), Parent(p), [p[|p| - 1]]);
  }

  /** Where blank text was changed to hold something, a tree that dropped the text first gets a hash there. */
  lemma TextGivesWay(h: Hash, p: Path, x: Value, later: Hash)
    requires !HashPath(h, p) && !Blank(x) && Merge(h, p, x).Success? && Merge(later, p, x).Success?
    requires HashPath(later, Parent(p)) && Fetch(Obj(later), Parent(p)) == EMPTY
    ensures Fetch(Obj(Update(h, p, x).value), p) == EMPTY && Fetch(Obj(Update(later, p, x).value), p) == x
  {
    hide CompactHash, Merge, Find;
    MergeOffHashPath(h, p, x);
    FetchCompact(Obj(Merge(h, p, x).value), p);
    CompactOfHash(Merge(h, p, x).value);
    EmptyParent(later, p);
    PutGet(later, p, x);
    ClearedText(x.s);
  }

  /** In a tree that was compacted, alone or by an update elsewhere, text that does not last is gone. */
  lemma TextDropped(h: Hash, p: Path, x: Value)
    requires !HashPath(h, p) && Merge(h, p, x).Success?
    ensures HashPath(CompactHash(h), Parent(p))
    ensures Fetch(Obj(CompactHash(h)), Parent(p)) == if BlankText(TextAt(h, p)) then EMPTY else Str(TextAt(h, p))
  {
    MergeOffHashPath(h, p, x);
    FetchCompact(Obj(h), Parent(p));
    CompactOfHash(h);
    ClearedText(TextAt(h, p));
    HashPathCompact(h, Parent(p));
  }

  /** An early compaction changes nothing in the end exactly when the update does not put text into a
      string that is blank so far. */
  lemma CompactEarlyIff(h: Hash, p: Path, x: Value)
    requires Update(h, p, x).Success? && Update(CompactHash(h), p, x).Success?
    ensures Update(CompactHash(h), p, x) == Update(h, p, x) <==> Lasting(h, p, x)
  {
    var c := CompactHash(h);
    CompactHashIdempotent(h);
    if HashPath(h, p) {
      CompactEarly(h, p, x);
    } else {
      hide Compact, Kept, CompactHash, Merge, Find;
      TextDropped(h, p, x);
      if !BlankText(TextAt(h, p)) {
        MergeWhere(h, p, x);
        SameLater(h, p, x, c);
        CompactEarly(h, Where(h, p), What(h, p, x));
      } else if Blank(x) {
        BlankLeavesNoTrace(h, p, x, c);
      } else {
        TextGivesWay(h, p, x, c);
      }
    }
  }

  /** What is left of a path's surroundings after an update that does not meet it. */
  lemma SurroundingsLater(h: Hash, p: Path, x: Value, q: Path, y: Value)
    requires Incomparable(p, q) && !InOneString(h, p, q)
    requires Update(h, p, x).Success? && Update(h, q, y).Success?
    ensures var later := Update(h, q, y).value;
            && CompactHash(later) == later && HashPath(later, Where(h, p))
            && (!HashPath(h, p) ==> Fetch(Obj(later), Parent(p)) == Fetch(Obj(CompactHash(h)), Parent(p)))
  {
    hide Compact, CompactHash, Merge, Find;
    WhereApart(h, p, x, q, y);
    MergeWhere(h, p, x);
    var m := Merge(h, q, y).value;
    MergeFrame(h, q, y, Where(h, p));
    HashPathCompact(m, Where(h, p));
    CompactHashIdempotent(m);
    UpdateFrame(h, q, y, Where(h, p));
  }

  /** Updates at paths that do not meet, and not both inside one string, commute exactly when neither puts text
      into a string that is blank so far. */
  lemma UpdatesCommuteIff(h: Hash, p: Path, x: Value, q: Path, y: Value)
    requires Incomparable(p, q) && !InOneString(h, p, q)
    requires Update(h, p, x).Success? && Update(Update(h, p, x).value, q, y).Success?
    requires Update(h, q, y).Success? && Update(Update(h, q, y).value, p, x).Success?
    ensures Update(Update(h, p, x).value, q, y) == Update(Update(h, q, y).value, p, x)
       <==> Lasting(h, p, x) && Lasting(h, q, y)
  {
    hide Merge, CompactHash, Update, HashPath, Lasting, TextAt;
    if !Lasting(h, p, x) {
      LostInSecond(h, p, x, q, y);
    } else if !Lasting(h, q, y) {
      LostInSecond(h, q, y, p, x);
    } else if Traceless(h, p, x) {
      TracelessCommutes(h, p, x, q, y);
    } else if Traceless(h, q, y) {
      TracelessCommutes(h, q, y, p, x);
    } else {
      SolidCommutes(h, p, x, q, y);
    }
  }

  ghost predicate Traceless(h: Hash, p: Path, x: Value) {
    !HashPath(h, p) && BlankText(TextAt(h, p)) && Blank(x)
  }

  lemma LostInSecond(h: Hash, p: Path, x: Value, q: Path, y: Value)
    requires Incomparable(p, q) && !InOneString(h, p, q) && !Lasting(h, p, x)
    requires Update(h, p, x).Success? && Update(Update(h, p, x).value, q, y).Success?
    requires Update(h, q, y).Success? && Update(Update(h, q, y).value, p, x).Success?
    ensures Update(Update(h, p, x).value, q, y) != Update(Update(h, q, y).value, p, x)
  {
    hide Compact, Kept, CompactHash, Merge, Find;
    var a, b := Update(h, p, x).value, Update(h, q, y).value;
    SurroundingsLater(h, p, x, q, y);
    TextDropped(h, p, x);
    TextGivesWay(h, p, x, b);
    UpdateFrame(a, q, y, p);
    CompactHashIdempotent(Merge(h, p, x).value);
  }

  lemma TracelessCommutes(h: Hash, p: Path, x: Value, q: Path, y: Value)
    requires Incomparable(p, q) && !InOneString(h, p, q) && Traceless(h, p, x) && Lasting(h, q, y)
    requires Update(h, p, x).Success? && Update(Update(h, p, x).value, q, y).Success?
    requires Update(h, q, y).Success? && Update(Update(h, q, y).value, p, x).Success?
    ensures Update(Update(h, p, x).value, q, y) == Update(Update(h, q, y).value, p, x)
  {
    hide Compact, Kept, CompactHash, Merge, Find;
    SurroundingsLater(h, p, x, q, y);
    TextDropped(h, p, x);
    BlankLeavesNoTrace(h, p, x, Update(h, q, y).value);
    CompactEarlyIff(h, q, y);
  }

  lemma SolidCommutes(h: Hash, p: Path, x: Value, q: Path, y: Value)
    requires Incomparable(p, q) && !InOneString(h, p, q)
    requires Lasting(h, p, x) && !Traceless(h, p, x) && Lasting(h, q, y) && !Traceless(h, q, y)
    requires Update(h, p, x).Success? && Update(Update(h, p, x).value, q, y).Success?
    requires Update(h, q, y).Success? && Update(Update(h, q, y).value, p, x).Success?
    ensures Update(Update(h, p, x).value, q, y) == Update(Update(h, q, y).value, p, x)
  {
    hide Compact, Kept, CompactHash, Merge, Find;
    var a, b := Update(h, p, x).value, Update(h, q, y).value;
    WhereApart(h, p, x, q, y);
    MergeWhere(h, p, x);
    MergeWhere(h, q, y);
    SurroundingsLater(h, p, x, q, y);
    SurroundingsLater(h, q, y, p, x);
    SameLater(h, p, x, b);
    SameLater(h, q, y, a);
    HashPathUpdatesCommute(h, Where(h, p), What(h, p, x), Where(h, q), What(h, q, y));
  }

  // Two updates inside one string

  /** What the second update leaves of the string, after the first left `text`. */
  function TextThen(text: Value, key: string, x: Value): Value {
    if Blank(text) then Obj(map[key := x])
    else match AssignInside(text, key, x) case Success(v) => v case Failure(_) => text
  }

  lemma {:induction false} PutOver(h: Hash, p: Path, text: string, v: Value)
    requires p != [] && HashPath(h, p) && Find(Obj(h), p).Some? && Find(Obj(h), p).value.Str?
    ensures Merge(h, p, Str(text)).Success? && Merge(h, p, v).Success?
    ensures Merge(Merge(h, p, Str(text)).value, p, v) == Merge(h, p, v)
    decreases |p|
  {
    if |p| == 1 {
      assert p[1..] == [];
      assert h[p[0] := Str(text)][p[0] := v] == h[p[0] := v];
    } else {
      var child := h[p[0]].fields;
      PutOver(child, p[1..], text, v);
      var m := Merge(child, p[1..], Str(text)).value;
      assert h[p[0] := Obj(m)][p[0] := Obj(Merge(m, p[1..], v).value)] == h[p[0] := Obj(Merge(m, p[1..], v).value)];
    }
  }

  /** Under a hash, a new entry is a merge of that entry at the hash. */
  lemma {:induction false} PutAtParent(h: Hash, p: Path, x: Value)
    requires |p| >= 2 && HashPath(h, p) && Find(Obj(h), p) == None
    ensures Merge(h, p, x).Success? && Merge(h, p, x) == Merge(h, Parent(p), Obj(map[p[|p| - 1] := x]))
    decreases |p|
  {
    var k, last := p[0], p[|p| - 1];
    var child := Child(h, k);
    assert Parent(p)[1..] == Parent(p[1..]);
    if |p| == 2 {
      assert p[1..] == [last] && p[1..][1..] == [] && Parent(p) == [k];
      assert k in h ==> Find(Obj(h), p) == Find(h[k], [last]);
      FindAtKey(child.fields, last);
      assert child.fields + map[last := x] == child.fields[last := x];
      assert map[] + map[last := x] == map[last := x];
    } else {
      PutAtParent(child.fields, p[1..], x);
    }
  }

  lemma SecondInOneString(h: Hash, p: Path, x: Value, q: Path, y: Value)
    requires InOneString(h, p, q)
    requires Update(h, p, x).Success? && Update(Update(h, p, x).value, q, y).Success?
    ensures Update(Update(h, p, x).value, q, y) == Update(h, Parent(p), TextThen(Replaced(h, p, x), q[|q| - 1], y))
  {
    hide Compact, Kept, CompactHash, Merge, Find, AssignInside;
    MergeOffHashPath(h, p, x);
    var parent, text := Parent(p), Replaced(h, p, x);
    var m := Merge(h, p, x).value;
    var v := TextThen(text, q[|q| - 1], y);
    MergedAtPath(h, parent, text);
    HashPathCompact(m, parent);
    FetchCompact(Obj(m), parent);
    CompactOfHash(m);
    ClearedText(text.s);
    PutOver(h, parent, text.s, v);
    SecondAtParent(CompactHash(m), q, y, text);
    CompactEarly(m, parent, v);
  }

  lemma SecondAtParent(later: Hash, q: Path, y: Value, text: Value)
    requires |q| >= 2 && HashPath(later, Parent(q)) && text.Str? && Merge(later, q, y).Success?
    requires Fetch(Obj(later), Parent(q)) == if Blank(text) then EMPTY else text
    ensures Merge(later, q, y) == Merge(later, Parent(q), TextThen(text, q[|q| - 1], y))
  {
    hide Merge;
    if Blank(text) {
      EmptyParent(later, q);
      PutAtParent(later, q, y);
    } else {
      ParentPath(later, q);
      MergeOffHashPath(later, q, y);
    }
  }

  /** Inside one string two updates commute exactly when both orders leave the same of it. */
  lemma CommuteInOneStringIff(h: Hash, p: Path, x: Value, q: Path, y: Value)
    requires InOneString(h, p, q)
    requires Update(h, p, x).Success? && Update(Update(h, p, x).value, q, y).Success?
    requires Update(h, q, y).Success? && Update(Update(h, q, y).value, p, x).Success?
    ensures Update(Update(h, p, x).value, q, y) == Update(Update(h, q, y).value, p, x)
       <==> Cleared(TextThen(Replaced(h, p, x), q[|q| - 1], y)) == Cleared(TextThen(Replaced(h, q, y), p[|p| - 1], x))
  {
    hide Compact, Kept, CompactHash, Merge, Find, AssignInside, Cleared;
    SecondInOneString(h, p, x, q, y);
    SecondInOneString(h, q, y, p, x);
    MergeOffHashPath(h, p, x);
    UpdateAlikeIff(h, Parent(p), TextThen(Replaced(h, p, x), q[|q| - 1], y),
        TextThen(Replaced(h, q, y), p[|p| - 1], x));
  }

  /** The text with `n` characters from `i` on replaced. */
  function Splice(s: string, i: nat, n: nat, x: string): string
    requires i + n <= |s|
  {
    s[..i] + x + s[i + n..]
  }

  ghost predicate OccursAt(s: string, key: string, i: nat) {
    i + |key| <= |s| && s[i..i + |key|] == key
  }

  ghost predicate FirstAt(s: string, key: string, i: nat) {
    OccursAt(s, key, i) && forall k: nat | k < i :: !OccursAt(s, key, k)
  }

  lemma OccursShift(s: string, key: string, k: nat)
    requires s != ""
    ensures OccursAt(s, key, k + 1) <==> OccursAt(s[1..], key, k)
  {
    if k + 1 + |key| <= |s| {
      assert s[1..][k..k + |key|] == s[k + 1..k + 1 + |key|];
    }
  }

  lemma FirstShift(s: string, key: string, i: nat)
    requires s != "" && i > 0 && !OccursAt(s, key, 0)
    ensures FirstAt(s, key, i) <==> FirstAt(s[1..], key, i - 1)
  {
    OccursShift(s, key, i - 1);
    forall k: nat | 0 < k ensures OccursAt(s, key, k) <==> OccursAt(s[1..], key, k - 1) {
      OccursShift(s, key, k - 1);
    }
    hide OccursAt;
    if FirstAt(s, key, i) {
      forall k: nat | k < i - 1 ensures !OccursAt(s[1..], key, k) {
        assert !OccursAt(s, key, k + 1);
      }
    }
  }

  /** FindText finds the first occurrence. */
  lemma {:induction false} FindTextIsFirst(s: string, key: string, i: nat)
    ensures FindText(s, key) == Some(i) <==> FirstAt(s, key, i)
  {
    assert key <= s <==> OccursAt(s, key, 0);
    if !(key <= s) && s != "" && i > 0 {
      hide OccursAt, FirstAt;
      FirstShift(s, key, i);
      FindTextIsFirst(s[1..], key, i - 1);
    }
  }

  lemma AssignAt(s: string, key: string, i: nat, x: string)
    requires FindText(s, key) == Some(i)
    ensures i + |key| <= |s| && AssignInside(Str(s), key, Str(x)) == Success(Str(Splice(s, i, |key|, x)))
  {
    FindTextIsFirst(s, key, i);
  }

  lemma OccursBefore(s: string, key: string, k: nat, j: nat, n: nat, y: string)
    requires k + |key| <= j && j + n <= |s|
    ensures OccursAt(Splice(s, j, n, y), key, k) <==> OccursAt(s, key, k)
  {
    assert Splice(s, j, n, y)[k..k + |key|] == s[k..k + |key|];
  }

  /** A replacement further on does not touch the first occurrence before it. */
  lemma FirstStays(s: string, key: string, i: nat, j: nat, n: nat, y: string)
    requires FindText(s, key) == Some(i) && i + |key| <= j && j + n <= |s|
    ensures FindText(Splice(s, j, n, y), key) == Some(i)
  {
    hide FindText, Splice, OccursAt;
    FindTextIsFirst(s, key, i);
    FindTextIsFirst(Splice(s, j, n, y), key, i);
    forall k: nat | k <= i ensures OccursAt(Splice(s, j, n, y), key, k) <==> OccursAt(s, key, k) {
      OccursBefore(s, key, k, j, n, y);
    }
  }

  /** Replacements at places that do not overlap leave the same text in either order. */
  lemma SplicesCommute(s: string, i: nat, n: nat, x: string, j: nat, m: nat, y: string)
    requires i + n <= j && j + m <= |s|
    ensures Splice(Splice(s, i, n, x), j + |x| - n, m, y) == Splice(Splice(s, j, m, y), i, n, x)
  {
    var a, b := Splice(s, i, n, x), Splice(s, j, m, y);
    assert a[..j + |x| - n] == s[..i] + x + s[i + n..j];
    assert a[j + |x| - n + m..] == s[j + m..];
    assert b[..i] == s[..i];
    assert b[i + n..] == s[i + n..j] + y + s[j + m..];
  }

  /** What two updates inside one string replace lies apart: the first occurrence of `a` ends before
      that of `b`, and `b`'s is still the first one after the text put in for `a`. */
  ghost predicate Apart(s: string, a: string, x: string, b: string) {
    exists i: nat, j: nat :: ApartAt(s, a, i, x, b, j)
  }

  ghost predicate ApartAt(s: string, a: string, i: nat, x: string, b: string, j: nat) {
    && FindText(s, a) == Some(i) && FindText(s, b) == Some(j)
    && i + |a| <= j && j + |b| <= |s|
    && FindText(Splice(s, i, |a|, x), b) == Some(j + |x| - |a|)
  }

  ghost predicate BothOrders(s: string, a: string, x: string, b: string, y: string) {
    var r1, r2 := AssignInside(Str(s), a, Str(x)), AssignInside(Str(s), b, Str(y));
    && r1.Success? && r2.Success? && AssignInside(r1.value, b, Str(y)).Success?
    && AssignInside(r1.value, b, Str(y)) == AssignInside(r2.value, a, Str(x))
  }

  lemma TextsApartAt(s: string, a: string, i: nat, x: string, b: string, j: nat, y: string)
    requires ApartAt(s, a, i, x, b, j)
    ensures BothOrders(s, a, x, b, y)
  {
    hide FindText, AssignInside, Splice;
    var first, second := Splice(s, i, |a|, x), Splice(s, j, |b|, y);
    AssignAt(s, a, i, x);
    AssignAt(s, b, j, y);
    AssignAt(first, b, j + |x| - |a|, y);
    FirstStays(s, a, i, j, |b|, y);
    AssignAt(second, a, i, x);
    SplicesCommute(s, i, |a|, x, j, |b|, y);
  }

  lemma ApartTexts(s: string, a: string, x: string, b: string, y: string)
    requires Apart(s, a, x, b)
    ensures BothOrders(s, a, x, b, y)
  {
    var i: nat, j: nat :| ApartAt(s, a, i, x, b, j);
    hide ApartAt, BothOrders;
    TextsApartAt(s, a, i, x, b, j, y);
  }

  /** Inside one string two updates commute when they replace texts that lie apart and neither leaves the
      string blank. Where they do not, the two orders can only end alike by coincidence of texts. */
  lemma ApartInOneStringCommutes(h: Hash, p: Path, x: Value, q: Path, y: Value)
    requires InOneString(h, p, q)
    requires Update(h, p, x).Success? && Update(Update(h, p, x).value, q, y).Success?
    requires Update(h, q, y).Success? && Update(Update(h, q, y).value, p, x).Success?
    requires !Blank(Replaced(h, p, x)) && !Blank(Replaced(h, q, y))
    requires x.Str? && Apart(TextAt(h, p), p[|p| - 1], x.s, q[|q| - 1])
    ensures Update(Update(h, p, x).value, q, y) == Update(Update(h, q, y).value, p, x)
  {
    hide Merge, CompactHash, Find, AssignInside, Apart;
    MergeOffHashPath(h, p, x);
    MergeOffHashPath(h, q, y);
    ApartTexts(TextAt(h, p), p[|p| - 1], x.s, q[|q| - 1], y.s);
    CommuteInOneStringIff(h, p, x, q, y);
  }

  lemma TextReplacements()
    ensures AssignInside(Str("bab"), "ab", Str("b")) == Success(Str("bb"))
    ensures AssignInside(Str("bab"), "b", Str("ab")) == Success(Str("abab"))
    ensures AssignInside(Str("bb"), "b", Str("ab")) == Success(Str("abb"))
    ensures AssignInside(Str("abab"), "ab", Str("b")) == Success(Str("bab"))
  {
    FirstAtStart("b", "ab");
    FirstAtStart("b", "b");
    FirstAtStart("ab", "ab");
    FindTextBab();
    hide FindText, AssignInside;
    assert "b" + "ab" == "bab" && "b" + "b" == "bb" && "ab" + "ab" == "abab";
    AssignAt("bab", "ab", 1, "b");
    AssignAt("bab", "b", 0, "ab");
    AssignAt("bb", "b", 0, "ab");
    AssignAt("abab", "ab", 0, "b");
    assert Splice("bab", 1, 2, "b") == "bb" && Splice("bab", 0, 1, "ab") == "abab";
    assert Splice("bb", 0, 1, "ab") == "abb" && Splice("abab", 0, 2, "b") == "bab";
  }

  lemma FirstAtStart(key: string, rest: string)
    ensures FindText(key + rest, key) == Some(0)
  {
  }

  lemma FindTextBab()
    ensures FindText("bab", "ab") == Some(1)
  {
    assert "bab"[1..] == "ab" && "bab"[0] != "ab"[0];
    assert FindText("ab", "ab") == Some(0);
  }

  lemma TextsPresent()
    ensures !BlankText("bb") && !BlankText("abab") && !BlankText("abb") && !BlankText("bab")
  {
    assert "bb"[0] == 'b' && "abab"[0] == 'a' && "abb"[0] == 'a' && "bab"[0] == 'b';
  }

  /** The failing input inside one string: "bab" becomes "abb" or stays "bab". */
  lemma OneStringDoesNotCommute()
    ensures var h: Hash := map["k" := Str("bab")]; var p, q := ["k", "ab"], ["k", "b"];
            && InOneString(h, p, q)
            && Update(h, p, Str("b")) == Success(map["k" := Str("bb")])
            && Update(h, q, Str("ab")) == Success(map["k" := Str("abab")])
            && Update(map["k" := Str("bb")], q, Str("ab")) == Success(map["k" := Str("abb")])
            && Update(map["k" := Str("abab")], p, Str("b")) == Success(map["k" := Str("bab")])
  {
    hide Update, AssignInside, BlankText, HashPath;
    TextReplacements();
    TextsPresent();
    UpdateText("k", "bab", "ab", "b", "bb");
    UpdateText("k", "bab", "b", "ab", "abab");
    UpdateText("k", "bb", "b", "ab", "abb");
    UpdateText("k", "abab", "ab", "b", "bab");
    assert Parent(["k", "ab"]) == Parent(["k", "b"]) == ["k"];
  }

  lemma UpdateText(k: string, text: string, key: string, x: string, result: string)
    requires AssignInside(Str(text), key, Str(x)) == Success(Str(result)) && !BlankText(result)
    ensures !HashPath(map[k := Str(text)], [k, key])
    ensures Update(map[k := Str(text)], [k, key], Str(x)) == Success(map[k := Str(result)])
  {
    hide AssignInside, BlankText, Compact, CompactHash;
    var h: Hash := map[k := Str(text)];
    var p := [k, key];
    assert p[0] == k && p[1] == key && |p| == 2 && Child(h, k) == Str(text);
    assert Merge(h, p, Str(x)) == Success(h[k := Str(result)]);
    assert h[k := Str(result)] == map[k := Str(result)];
    CompactOfText(map[k := Str(result)]);
  }

  lemma CompactOfText(h: Hash)
    requires NoBlanks(Obj(h))
    ensures CompactHash(h) == h
  {
    CompactFixesNoBlanks(Obj(h));
  }

  lemma UpdateAtNewKey(h: Hash, key: string, x: Value)
    requires key !in h && NoBlanks(Obj(h)) && !Blank(x) && NoBlanks(x)
    ensures Update(h, [key], x) == Success(h[key := x])
  {
    CompactOfText(h[key := x]);
  }

  lemma UpdateNextToBlank(k: string, t: string, key: string, x: Value)
    requires k != key && BlankText(t) && NoBlanks(Obj(map[key := x]))
    ensures Update(map[k := Str(t)], [key], x) == Success(map[key := x])
  {
    var h: Hash := map[key := x];
    CompactOfText(h);
    ClearedText(t);
    PutOnEntry(h, k, Str(t));
    assert h[k := Str(t)] == map[k := Str(t)][key := x];
  }

  /** The failing input for blank text: with a space under "k", putting "z" into it gives "z" under "k", but after
      another update dropped the blank text it gives a hash. */
  lemma BlankTextDoesNotLast()
    ensures var h: Hash := map["k" := Str(" ")]; var p, q := ["k", " "], ["m"];
            && !HashPath(h, p)
            && Update(h, p, Str("z")) == Success(map["k" := Str("z")])
            && Update(map["k" := Str("z")], q, Num(1)) == Success(map["k" := Str("z"), "m" := Num(1)])
            && Update(h, q, Num(1)) == Success(map["m" := Num(1)])
            && Update(map["m" := Num(1)], p, Str("z")) == Success(map["m" := Num(1), "k" := Obj(map[" " := Str("z")])])
  {
    hide Update, Compact, CompactHash;
    assert "k" != "m" by { assert "k"[0] == 'k' && "m"[0] == 'm'; }
    assert !BlankText("z") by { assert "z"[0] == 'z'; }
    assert BlankText(" ");
    assert " "[..0] + "z" + " "[1..] == "z" && FindText(" ", " ") == Some(0);
    UpdateText("k", " ", " ", "z", "z");
    UpdateAtNewKey(map["k" := Str("z")], "m", Num(1));
    UpdateNextToBlank("k", " ", "m", Num(1));
    UpdateUnderNewKey(map["m" := Num(1)], "k", " ", Str("z"));
    assert map["k" := Str("z")]["m" := Num(1)] == map["k" := Str("z"), "m" := Num(1)];
  }

  lemma UpdateUnderNewKey(h: Hash, k: string, key: string, x: Value)
    requires k !in h && NoBlanks(Obj(h)) && !Blank(x) && NoBlanks(x)
    ensures Update(h, [k, key], x) == Success(h[k := Obj(map[key := x])])
  {
    var inner: Hash := map[key := x];
    assert [k, key][1..] == [key] && map[][key := x] == inner;
    assert Merge(h, [k, key], x) == Success(h[k := Obj(inner)]);
    assert key in inner;
    CompactOfText(h[k := Obj(inner)]);
  }
}
