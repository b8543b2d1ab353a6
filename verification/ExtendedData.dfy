/** Extended data: a JSON tree merged, compacted and read at a dot path. */
module ExtendedData {
  import opened Wrappers
  import opened Json
  import opened Presence
  import opened Text

  /** The segments of a dot path; none of them for the path ".". */
  type Path = seq<string>

  datatype Error = KeyNotFound | CannotMerge

  /** split("."), before trailing empty segments are dropped. */
  function SplitDots(s: string): (r: seq<string>)
    ensures r != []
  {
    if s == "" then [""]
    else
      var rest := SplitDots(s[1..]);
      if s[0] == '.' then [""] + rest else [[s[0]] + rest[0]] + rest[1..]
  }

  function DropTrailing(p: Path): Path {
    if p != [] && p[|p| - 1] == "" then DropTrailing(p[..|p| - 1]) else p
  }

  function Segments(objectPath: string): Path {
    if objectPath == "." then [] else DropTrailing(SplitDots(objectPath))
  }

  predicate NoDot(s: string) {
    forall i | 0 <= i < |s| :: s[i] != '.'
  }

  lemma {:induction false} SplitFirst(a: string, rest: string)
    requires NoDot(a)
    ensures SplitDots(a) == [a]
    ensures SplitDots(a + ['.'] + rest) == [a] + SplitDots(rest)
  {
    if a == "" {
      assert a + ['.'] + rest == ['.'] + rest;
    } else {
      SplitFirst(a[1..], rest);
      assert (a + ['.'] + rest)[1..] == a[1..] + ['.'] + rest;
      assert [a[0]] + a[1..] == a;
    }
  }

  lemma {:induction false} SplitJoin(p: Path)
    requires p != [] && forall seg | seg in p :: NoDot(seg)
    ensures SplitDots(Join(p, '.')) == p
  {
    if |p| == 1 {
      SplitFirst(p[0], "");
    } else {
      SplitFirst(p[0], Join(p[1..], '.'));
      SplitJoin(p[1..]);
    }
  }

  /** Every sequence of dotless segments that does not end in an empty one has a dot path. */
  lemma SegmentsJoin(p: Path)
    requires p != [] && p[|p| - 1] != "" && forall seg | seg in p :: NoDot(seg)
    ensures Segments(Join(p, '.')) == p
  {
    hide SplitDots, Join;
    SplitJoin(p);
    SplitOneDot();
  }

  lemma SplitOneDot()
    ensures SplitDots(".") == ["", ""]
  {
    assert "."[1..] == "";
  }

  /** Dots at the end say nothing. */
  lemma TrailingDot(s: string)
    ensures Segments(s + ".") == Segments(s)
  {
    SplitTrailingDot(s);
    var p := SplitDots(s);
    assert (p + [""])[..|p|] == p;
    if s == "." {
      SplitOneDot();
      assert DropTrailing(["", ""]) == [] by { assert ["", ""][..1] == [""] && [""][..0] == []; }
    }
    if s == "" {
      assert SplitDots("") == [""] && DropTrailing([""]) == [] by { assert [""][..0] == []; }
    }
  }

  lemma {:induction false} SplitTrailingDot(s: string)
    ensures SplitDots(s + ".") == SplitDots(s) + [""]
  {
    if s == "" {
      assert s + "." == ".";
      SplitOneDot();
    } else {
      assert (s + ".")[1..] == s[1..] + ".";
      SplitTrailingDot(s[1..]);
    }
  }

  // Reading

  function Find(v: Value, p: Path): Option<Value>
    decreases |p|
  {
    if p == [] then Some(v)
    else if v.Obj? && p[0] in v.fields then Find(v.fields[p[0]], p[1..])
    else None
  }

  /** ExtendedDataAtPath.fetch: a missing key reads as an empty hash. */
  function Fetch(v: Value, p: Path): Value {
    Find(v, p).GetOr(EMPTY)
  }

  // Compacting

  /** A value with every blank hash entry dropped, at every hash depth. */
  function Compact(v: Value): Value
    decreases v, 0
  {
    match v
    case Obj(h) => Obj(map k | k in h && Kept(h[k]) :: Compact(h[k]))
    case _ => v
  }

  /** A hash entry stays when it is present before and after compacting. */
  predicate Kept(v: Value)
    decreases v, 1
  {
    !Blank(v) && !Blank(Compact(v))
  }

  function CompactHash(h: Hash): Hash {
    Compact(Obj(h)).fields
  }

  /** What a stored value reads as after compacting. */
  function Cleared(v: Value): Value {
    if Kept(v) then Compact(v) else EMPTY
  }

  // Merging

  function FindText(s: string, key: string): Option<nat> {
    if key <= s then Some(0)
    else if s == "" then None
    else
      var i :- FindText(s[1..], key);
      Some(i + 1)
  }

  /** Indexed assignment on a value that is no hash: only a string takes a text key,
      and it replaces that text inside itself. */
  function AssignInside(parent: Value, key: string, x: Value): Result<Value, Error> {
    if parent.Str? && x.Str? then
      match FindText(parent.s, key)
      case Some(i) =>
        if i + |key| <= |parent.s| then Success(Str(parent.s[..i] + x.s + parent.s[i + |key|..]))
            else Failure(CannotMerge)
      case None => Failure(CannotMerge)
    else Failure(CannotMerge)
  }

  /** The value under a key, or the empty hash put there on the way down. */
  function Child(h: Hash, key: string): Value {
    if key in h then h[key] else EMPTY
  }

  /** merge_extended_data_hash: shallow at the path, creating missing hashes on the way. */
  function Merge(h: Hash, p: Path, x: Value): Result<Hash, Error>
    decreases |p|
  {
    if p == [] then
      if x.Obj? then Success(h + x.fields) else Failure(CannotMerge)
    else if |p| == 1 then
      if p[0] in h && h[p[0]].Obj? then
        if x.Obj? then Success(h[p[0] := Obj(h[p[0]].fields + x.fields)]) else Failure(CannotMerge)
      else Success(h[p[0] := x])
    else
      var child := Child(h, p[0]);
      if child.Obj? then
        var merged :- Merge(child.fields, p[1..], x);
        Success(h[p[0] := Obj(merged)])
      else if |p| > 2 then Failure(KeyNotFound)
      else
        var replaced :- AssignInside(child, p[1], x);
        Success(h[p[0] := replaced])
  }

  /** resource_extended_data_update! on the stored hash. */
  function Update(h: Hash, p: Path, x: Value): Result<Hash, Error> {
    var merged :- Merge(h, p, x);
    Success(CompactHash(merged))
  }

  /** Every proper prefix of the path is absent or a hash. */
  predicate HashPath(h: Hash, p: Path)
    decreases |p|
  {
    |p| >= 2 && p[0] in h ==> h[p[0]].Obj? && HashPath(h[p[0]].fields, p[1..])
  }

  /** What a successful merge leaves at its path. */
  function Merged(previous: Option<Value>, x: Value): Value {
    if previous.Some? && previous.value.Obj? && x.Obj? then Obj(previous.value.fields + x.fields) else x
  }

  /** Neither path is a prefix of the other. */
  predicate Incomparable(p: Path, q: Path) {
    !(p <= q) && !(q <= p)
  }

  // Compaction

  /** No hash entry is blank, at any hash depth. */
  ghost predicate NoBlanks(v: Value) {
    v.Obj? ==> forall k | k in v.fields :: !Blank(v.fields[k]) && NoBlanks(v.fields[k])
  }

  lemma {:induction false} CompactLeavesNoBlanks(v: Value)
    ensures NoBlanks(Compact(v))
  {
    if v.Obj? {
      forall k | k in v.fields ensures NoBlanks(Compact(v.fields[k])) {
        CompactLeavesNoBlanks(v.fields[k]);
      }
    }
  }

  /** Compaction fixes exactly the trees without blanks. */
  lemma {:induction false} CompactFixesNoBlanks(v: Value)
    ensures NoBlanks(v) <==> Compact(v) == v
  {
    CompactLeavesNoBlanks(v);
    if v.Obj? && NoBlanks(v) {
      forall k | k in v.fields ensures Compact(v.fields[k]) == v.fields[k] {
        CompactFixesNoBlanks(v.fields[k]);
      }
      assert Compact(v).fields == v.fields;
    }
  }

  /** Which entries of a hash are stored: numbers, true, non-empty arrays, text with a character that is no
      white space, and hashes with such an entry; the others go. Only hashes change, within. */
  lemma StoredEntries(h: Hash, k: string)
    ensures k in CompactHash(h) <==>
              k in h && match h[k]
                        case Null => false
                        case Bool(b) => b
                        case Num(_) => true
                        case Str(s) => exists i :: 0 <= i < |s| && !IsSpace(s[i])
                        case Arr(items) => |items| > 0
                        case Obj(f) => exists j :: j in CompactHash(f)
    ensures k in CompactHash(h) ==>
              CompactHash(h)[k] == match h[k] case Obj(f) => Obj(CompactHash(f)) case v => v
  {
    EntryOfCompact(h, k);
    if k in h && h[k].Obj? {
      KeptHash(h[k].fields);
      CompactOfHash(h[k].fields);
      var c := CompactHash(h[k].fields);
      if c != map[] {
        assert exists j :: j in c;
      }
    }
  }

  lemma CompactIdempotent(v: Value)
    ensures Compact(Compact(v)) == Compact(v)
  {
    CompactLeavesNoBlanks(v);
    CompactFixesNoBlanks(Compact(v));
  }

  /** Reading a compacted tree is clearing what the tree held. */
  lemma {:induction false} FetchCompact(v: Value, p: Path)
    requires v.Obj?
    ensures Fetch(Compact(v), p) == Cleared(Fetch(v, p))
    decreases |p|
  {
    if p != [] && p[0] in v.fields {
      var w := v.fields[p[0]];
      if w.Obj? {
        FetchCompact(w, p[1..]);
        if !Kept(w) {
          assert Compact(w) == EMPTY;
          FetchEmpty(p[1..]);
        }
      } else {
        var c := Compact(v);
        assert Find(v, p) == Find(w, p[1..]);
        assert Find(c, p) == if Kept(w) then Find(w, p[1..]) else None;
      }
    }
  }

  lemma FetchEmpty(p: Path)
    ensures Fetch(EMPTY, p) == EMPTY
  {
  }

  lemma FindAtKey(h: Hash, key: string)
    ensures Find(Obj(h), [key]) == if key in h then Some(h[key]) else None
  {
    assert [key][1..] == [];
  }

  lemma ClearedText(t: string)
    ensures Cleared(Str(t)) == if BlankText(t) then EMPTY else Str(t)
  {
    assert Compact(Str(t)) == Str(t);
  }

  // Merging

  /** Along a hash path a merge fails only for a scalar over an existing hash. */
  lemma {:induction false} MergeSucceeds(h: Hash, p: Path, x: Value)
    requires HashPath(h, p)
    ensures Merge(h, p, x).Success? <==> x.Obj? || !(Find(Obj(h), p).Some? && Find(Obj(h), p).value.Obj?)
    decreases |p|
  {
    if |p| >= 2 && p[0] in h {
      MergeSucceeds(h[p[0]].fields, p[1..], x);
    } else if |p| >= 2 {
      MergeSucceeds(map[], p[1..], x);
    }
  }

  /** A failing merge is Not Found exactly when a value that is no hash stands before the path's parent. */
  lemma {:induction false} MergeErrors(h: Hash, p: Path, x: Value)
    requires Merge(h, p, x).Failure?
    ensures Merge(h, p, x) == Failure(KeyNotFound) <==>
              exists n :: 0 < n < |p| - 1 && Find(Obj(h), p[..n]).Some? && !Find(Obj(h), p[..n]).value.Obj?
    ensures Merge(h, p, x) == Failure(KeyNotFound) || Merge(h, p, x) == Failure(CannotMerge)
    decreases |p|
  {
    if |p| > 2 {
      var child := Child(h, p[0]);
      forall n | 0 < n < |p| - 1
        ensures Find(Obj(h), p[..n]) == if p[0] in h then Find(child, p[1..][..n - 1]) else None
      {
        assert p[..n][1..] == p[1..][..n - 1];
      }
      if child.Obj? {
        MergeErrors(child.fields, p[1..], x);
        assert Find(EMPTY, []) == Some(EMPTY);
        if n :| 0 < n < |p| - 1 && Find(Obj(h), p[..n]).Some? && !Find(Obj(h), p[..n]).value.Obj? {
          assert p[1..][..n - 1] == [] || 0 < n - 1;
        }
        if p[0] in h {
          forall n | 0 < n < |p[1..]| - 1 ensures Find(child, p[1..][..n]) == Find(Obj(h), p[..n + 1]) {
          }
        }
      } else {
        assert p[..1][1..] == [] && Find(Obj(h), p[..1]) == Some(child);
      }
    }
  }

  lemma {:induction false} MergedAtPath(h: Hash, p: Path, x: Value)
    requires HashPath(h, p) && Merge(h, p, x).Success?
    ensures Find(Obj(Merge(h, p, x).value), p) == Some(Merged(Find(Obj(h), p), x))
    ensures HashPath(Merge(h, p, x).value, p)
    decreases |p|
  {
    if |p| == 1 {
      assert p[1..] == [];
    } else if |p| >= 2 {
      var child := Child(h, p[0]);
      MergedAtPath(child.fields, p[1..], x);
    }
  }

  /** Nothing changes at a path the update does not meet. */
  lemma {:induction false} MergeFrame(h: Hash, p: Path, x: Value, q: Path)
    requires Merge(h, p, x).Success? && Incomparable(p, q)
    ensures Find(Obj(Merge(h, p, x).value), q) == Find(Obj(h), q)
    ensures HashPath(h, q) ==> HashPath(Merge(h, p, x).value, q)
    decreases |p|
  {
    if p[0] == q[0] {
      assert p == [p[0]] + p[1..] && q == [q[0]] + q[1..];
      var child := Child(h, p[0]);
      if child.Obj? {
        MergeFrame(child.fields, p[1..], x, q[1..]);
      } else {
        assert q[1..] != [] && Find(child, q[1..]) == None;
      }
    }
  }

  // Compacting early

  ghost predicate SameCompacted(a: Hash, b: Hash) {
    CompactHash(a) == CompactHash(b)
  }

  /** Compacting a hash before merging entries over it changes nothing in the end. */
  lemma EarlyAtRoot(f: Hash, g: Hash)
    ensures SameCompacted(CompactHash(f) + g, f + g)
  {
    forall k | k in f ensures Compact(Compact(f[k])) == Compact(f[k]) {
      CompactIdempotent(f[k]);
    }
    var c := CompactHash(f);
    var a, b := CompactHash(c + g), CompactHash(f + g);
    forall k ensures (k in a <==> k in b) && (k in a ==> a[k] == b[k]) {
      EntryOfCompact(f, k);
      EntryOfCompact(c + g, k);
      EntryOfCompact(f + g, k);
    }
    assert a == b;
  }

  lemma EntryOfCompact(h: Hash, k: string)
    ensures k in CompactHash(h) <==> k in h && Kept(h[k])
    ensures k in CompactHash(h) ==> CompactHash(h)[k] == Compact(h[k])
  {
  }

  /** Hashes that agree after compacting still do with one entry replaced alike. */
  lemma ReplaceEntry(a: Hash, b: Hash, k: string, v: Value, v': Value)
    requires SameCompacted(a, b) && Cleared(v) == Cleared(v')
    ensures SameCompacted(a[k := v], b[k := v'])
  {
    var c, d := CompactHash(a[k := v]), CompactHash(b[k := v']);
    var a', b' := CompactHash(a), CompactHash(b);
    forall j ensures (j in c <==> j in d) && (j in c ==> c[j] == d[j]) {
      if j != k {
        assert j in c <==> j in a';
        assert j in d <==> j in b';
        assert j in c ==> c[j] == a'[j];
        assert j in d ==> d[j] == b'[j];
      }
    }
    assert c == d;
  }

  lemma CompactHashIdempotent(h: Hash)
    ensures SameCompacted(CompactHash(h), h)
  {
    CompactIdempotent(Obj(h));
  }

  lemma KeptHash(f: Hash)
    ensures Kept(Obj(f)) <==> CompactHash(f) != map[]
  {
    if f == map[] {
      assert CompactHash(f) == map[];
    }
  }

  lemma HashPathCompact(h: Hash, p: Path)
    requires HashPath(h, p)
    ensures HashPath(CompactHash(h), p)
    decreases |p|
  {
    if |p| >= 2 && p[0] in h {
      HashPathCompact(h[p[0]].fields, p[1..]);
    }
  }

  /** Compaction may be done early: before the merge as well as after it. */
  lemma {:induction false} CompactEarly(h: Hash, p: Path, x: Value)
    requires HashPath(h, p) && Merge(h, p, x).Success? && Merge(CompactHash(h), p, x).Success?
    ensures SameCompacted(Merge(CompactHash(h), p, x).value, Merge(h, p, x).value)
    decreases |p|
  {
    CompactHashIdempotent(h);
    var c := CompactHash(h);
    if p == [] {
      EarlyAtRoot(h, x.fields);
    } else if |p| == 1 {
      EarlyAtLeaf(h, p[0], x);
    } else {
      hide Compact, Kept, CompactHash;
      var k := p[0];
      var child := Child(h, k);
      var child' := Child(c, k);
      ChildOfCompact(h, k);
      CompactEarly(child.fields, p[1..], x);
      var m, m' := Merge(child.fields, p[1..], x).value, Merge(child'.fields, p[1..], x).value;
      KeptHash(m);
      KeptHash(m');
      SameCompactedObjects(m', m);
      ReplaceEntry(c, h, k, Obj(m'), Obj(m));
    }
  }

  lemma SameCompactedObjects(a: Hash, b: Hash)
    requires SameCompacted(a, b)
    ensures Compact(Obj(a)) == Compact(Obj(b))
  {
  }

  /** A missing or emptied child reads as the empty hash on either side. */
  lemma ChildOfCompact(h: Hash, k: string)
    requires k in h ==> h[k].Obj?
    ensures var c := CompactHash(h);
            var child, child' := Child(h, k), Child(c, k);
            child.Obj? && child' == Obj(CompactHash(child.fields))
  {
    assert CompactHash(map[]) == map[];
    if k in h {
      KeptHash(h[k].fields);
    }
  }

  lemma EarlyAtLeaf(h: Hash, k: string, x: Value)
    requires Merge(h, [k], x).Success? && Merge(CompactHash(h), [k], x).Success?
    ensures SameCompacted(Merge(CompactHash(h), [k], x).value, Merge(h, [k], x).value)
  {
    var c := CompactHash(h);
    CompactHashIdempotent(h);
    if k in h && h[k].Obj? {
      var f := h[k].fields;
      EarlyAtRoot(f, x.fields);
      KeptHash(f);
      KeptHash(f + x.fields);
      KeptHash(CompactHash(f) + x.fields);
      assert map[] + x.fields == x.fields;
      ReplaceEntry(c, h, k, Obj(CompactHash(f) + x.fields), Obj(f + x.fields));
    } else {
      assert k in c ==> c[k] == Compact(h[k]);
      assert Merge(h, [k], x) == Success(h[k := x]) && Merge(c, [k], x) == Success(c[k := x]);
      ReplaceEntry(c, h, k, x, x);
    }
  }

  /** For a hash payload the early compaction changes nothing, and both merges succeed. */
  lemma UpdateIgnoresBlanks(h: Hash, p: Path, x: Value)
    requires HashPath(h, p) && x.Obj?
    ensures Update(h, p, x).Success? && Update(CompactHash(h), p, x) == Update(h, p, x)
  {
    hide Compact, Kept, CompactHash, Merge, Find;
    HashPathCompact(h, p);
    MergeSucceeds(h, p, x);
    MergeSucceeds(CompactHash(h), p, x);
    CompactEarly(h, p, x);
  }

  // Two updates at one path

  /** Below the first segment a merge is a merge into the child there. */
  lemma MergeStep(h: Hash, p: Path, x: Value)
    requires |p| >= 2 && HashPath(h, p)
    ensures Child(h, p[0]).Obj? && HashPath(Child(h, p[0]).fields, p[1..])
    ensures Merge(h, p, x) ==
      match Merge(Child(h, p[0]).fields, p[1..], x)
      case Success(m) => Success(h[p[0] := Obj(m)])
      case Failure(e) => Failure(e)
  {
  }

  /** The hash a payload meets at a key. */
  function Met(h: Hash, key: string): Hash {
    if key in h && h[key].Obj? then h[key].fields else map[]
  }

  lemma MergeAtKey(h: Hash, p: Path, f: Hash)
    requires |p| == 1
    ensures Merge(h, p, Obj(f)) == Success(h[p[0] := Obj(Met(h, p[0]) + f)])
  {
    assert map[] + f == f;
  }

  lemma MergeTwiceAtLeaf(h: Hash, p: Path, f: Hash, g: Hash)
    requires |p| <= 1
    ensures Merge(h, p, Obj(f)).Success?
    ensures Merge(Merge(h, p, Obj(f)).value, p, Obj(g)) == Merge(h, p, Obj(f + g))
  {
    if p == [] {
      assert h + f + g == h + (f + g);
    } else {
      hide Merge;
      var k, e := p[0], Met(h, p[0]);
      MergeAtKey(h, p, f);
      MergeAtKey(h, p, f + g);
      MergeAtKey(h[k := Obj(e + f)], p, g);
      assert e + f + g == e + (f + g);
      assert h[k := Obj(e + f)][k := Obj(e + f + g)] == h[k := Obj(e + f + g)];
    }
  }

  lemma {:induction false} MergeTwice(h: Hash, p: Path, f: Hash, g: Hash)
    requires HashPath(h, p)
    ensures Merge(h, p, Obj(f)).Success?
    ensures Merge(Merge(h, p, Obj(f)).value, p, Obj(g)) == Merge(h, p, Obj(f + g))
    decreases |p|
  {
    hide Merge, Find;
    if |p| <= 1 {
      MergeTwiceAtLeaf(h, p, f, g);
    } else {
      MergeSucceeds(h, p, Obj(f));
      MergedAtPath(h, p, Obj(f));
      MergeStep(h, p, Obj(f));
      MergeStep(h, p, Obj(f + g));
      var k, child := p[0], Child(h, p[0]);
      MergeTwice(child.fields, p[1..], f, g);
      var m := Merge(child.fields, p[1..], Obj(f)).value;
      MergeStep(h[k := Obj(m)], p, Obj(g));
      MergeSucceeds(h[k := Obj(m)], p, Obj(g));
      var n := Merge(m, p[1..], Obj(g)).value;
      assert h[k := Obj(m)][k := Obj(n)] == h[k := Obj(n)];
    }
  }

  /** Two updates at one path are one update with the combined payload. */
  lemma UpdateTwice(h: Hash, p: Path, f: Hash, g: Hash)
    requires HashPath(h, p)
    ensures Update(h, p, Obj(f)).Success?
    ensures Update(Update(h, p, Obj(f)).value, p, Obj(g)) == Update(h, p, Obj(f + g))
  {
    hide Compact, Kept, CompactHash, Merge, Find;
    MergeTwice(h, p, f, g);
    var m := Merge(h, p, Obj(f)).value;
    MergedAtPath(h, p, Obj(f));
    UpdateIgnoresBlanks(m, p, Obj(g));
  }

  // Updates at two paths

  /** A merge changes nothing but the entry of its first segment, and looks at nothing else. */
  lemma MergeIsLocal(h: Hash, h': Hash, p: Path, x: Value)
    requires p != [] && Merge(h, p, x).Success?
    requires (p[0] in h <==> p[0] in h') && (p[0] in h ==> h[p[0]] == h'[p[0]])
    ensures p[0] in Merge(h, p, x).value
    ensures Merge(h', p, x) == Success(h'[p[0] := Merge(h, p, x).value[p[0]]])
  {
  }

  lemma MergesCommuteApart(h: Hash, p: Path, x: Value, q: Path, y: Value)
    requires p != [] && q != [] && p[0] != q[0]
    requires Merge(h, p, x).Success? && Merge(h, q, y).Success?
    ensures Merge(Merge(h, p, x).value, q, y).Success?
    ensures Merge(Merge(h, p, x).value, q, y) == Merge(Merge(h, q, y).value, p, x)
  {
    hide Merge;
    var a, b := Merge(h, p, x).value, Merge(h, q, y).value;
    MergeIsLocal(h, h, p, x);
    MergeIsLocal(h, h, q, y);
    MergeIsLocal(h, b, p, x);
    MergeIsLocal(h, a, q, y);
    assert h[p[0] := a[p[0]]][q[0] := b[q[0]]] == h[q[0] := b[q[0]]][p[0] := a[p[0]]];
  }

  lemma IncomparableTails(p: Path, q: Path)
    requires Incomparable(p, q)
    ensures p != [] && q != []
    ensures p[0] == q[0] ==> |p| >= 2 && |q| >= 2 && Incomparable(p[1..], q[1..])
  {
    if p[0] == q[0] {
      assert p == [p[0]] + p[1..] && q == [q[0]] + q[1..];
    }
  }

  lemma {:induction false} MergesCommute(h: Hash, p: Path, x: Value, q: Path, y: Value)
    requires HashPath(h, p) && HashPath(h, q) && Incomparable(p, q)
    requires Merge(h, p, x).Success? && Merge(h, q, y).Success?
    ensures Merge(Merge(h, p, x).value, q, y).Success?
    ensures Merge(Merge(h, p, x).value, q, y) == Merge(Merge(h, q, y).value, p, x)
    decreases |p|
  {
    hide Merge, Find, HashPath, Incomparable;
    IncomparableTails(p, q);
    if p[0] != q[0] {
      MergesCommuteApart(h, p, x, q, y);
    } else {
      MergeStep(h, p, x);
      MergeStep(h, q, y);
      var c := Child(h, p[0]).fields;
      MergesCommute(c, p[1..], x, q[1..], y);
      MergesCommuteBelow(h, p, x, q, y, Merge(c, p[1..], x).value, Merge(c, q[1..], y).value);
    }
  }

  lemma MergesCommuteBelow(h: Hash, p: Path, x: Value, q: Path, y: Value, m: Hash, n: Hash)
    requires HashPath(h, p) && HashPath(h, q) && Incomparable(p, q) && p[0] == q[0] && |p| >= 2 && |q| >= 2
    requires Merge(h, p, x) == Success(h[p[0] := Obj(m)]) && Merge(h, q, y) == Success(h[p[0] := Obj(n)])
    requires Merge(m, q[1..], y).Success? && Merge(m, q[1..], y) == Merge(n, p[1..], x)
    ensures Merge(h[p[0] := Obj(m)], q, y).Success?
    ensures Merge(h[p[0] := Obj(m)], q, y) == Merge(h[p[0] := Obj(n)], p, x)
  {
    hide Merge, Find, HashPath;
    MergeFrame(h, p, x, q);
    MergeFrame(h, q, y, p);
    MergeStep(h[p[0] := Obj(m)], q, y);
    MergeStep(h[p[0] := Obj(n)], p, x);
    var d := Merge(m, q[1..], y).value;
    assert h[p[0] := Obj(m)][p[0] := Obj(d)] == h[p[0] := Obj(n)][p[0] := Obj(d)];
  }

  /** Along hash paths that do not meet, updates commute whenever both orders succeed. */
  lemma HashPathUpdatesCommute(h: Hash, p: Path, x: Value, q: Path, y: Value)
    requires HashPath(h, p) && HashPath(h, q) && Incomparable(p, q)
    requires Update(h, p, x).Success? && Update(Update(h, p, x).value, q, y).Success?
    requires Update(h, q, y).Success? && Update(Update(h, q, y).value, p, x).Success?
    ensures Update(Update(h, p, x).value, q, y) == Update(Update(h, q, y).value, p, x)
  {
    hide Compact, Kept, CompactHash, Merge, Find, HashPath;
    var a, b := Merge(h, p, x).value, Merge(h, q, y).value;
    MergesCommute(h, p, x, q, y);
    MergesCommute(h, q, y, p, x);
    MergeFrame(h, p, x, q);
    MergeFrame(h, q, y, p);
    CompactEarly(a, q, y);
    CompactEarly(b, p, x);
  }

  // Putting, then getting

  /** After an update the path reads as what was merged there, cleared of blanks. */
  lemma PutGet(h: Hash, p: Path, x: Value)
    requires HashPath(h, p) && Update(h, p, x).Success?
    ensures Fetch(Obj(Update(h, p, x).value), p) == Cleared(Merged(Find(Obj(h), p), x))
  {
    hide Compact, Kept, Cleared, Merge, Find;
    MergedAtPath(h, p, x);
    FetchCompact(Obj(Merge(h, p, x).value), p);
    CompactOfHash(Merge(h, p, x).value);
  }

  lemma CompactOfHash(h: Hash)
    ensures Obj(CompactHash(h)) == Compact(Obj(h))
  {
  }

  lemma {:induction false} FindExtended(v: Value, p: Path, q: Path)
    ensures Find(v, p + q) == match Find(v, p) case Some(w) => Find(w, q) case None => None
    decreases |p|
  {
    if p == [] {
      assert p + q == q;
    } else if v.Obj? && p[0] in v.fields {
      assert (p + q)[1..] == p[1..] + q;
      FindExtended(v.fields[p[0]], p[1..], q);
    }
  }

  /** Keys of the old hash at the path that the payload leaves out survive. */
  lemma OldKeysSurvive(h: Hash, p: Path, x: Value, key: string)
    requires HashPath(h, p) && Update(h, p, x).Success? && x.Obj?
    requires Find(Obj(h), p).Some? && Find(Obj(h), p).value.Obj?
    requires key in Find(Obj(h), p).value.fields && key !in x.fields
    ensures Fetch(Obj(Update(h, p, x).value), p + [key]) == Cleared(Find(Obj(h), p).value.fields[key])
  {
    hide Compact, Kept, Cleared, Merge;
    var m := Merge(h, p, x).value;
    MergedAtPath(h, p, x);
    FindExtended(Obj(m), p, [key]);
    FetchCompact(Obj(m), p + [key]);
    CompactOfHash(m);
  }

  /** Elsewhere nothing changes but the compaction. */
  lemma UpdateFrame(h: Hash, p: Path, x: Value, q: Path)
    requires Update(h, p, x).Success? && Incomparable(p, q)
    ensures Fetch(Obj(Update(h, p, x).value), q) == Fetch(Obj(CompactHash(h)), q)
  {
    hide Compact, Kept, Cleared, Merge, Find;
    var m := Merge(h, p, x).value;
    MergeFrame(h, p, x, q);
    FetchCompact(Obj(m), q);
    FetchCompact(Obj(h), q);
    CompactOfHash(m);
    CompactOfHash(h);
  }

  // What an update depends on

  lemma HashIsCleared(f: Hash)
    ensures Cleared(Obj(f)) == Compact(Obj(f)) == Obj(CompactHash(f))
  {
    KeptHash(f);
  }

  /** Hashes compact alike exactly when they do entry by entry. */
  lemma SameEntries(a: Hash, b: Hash)
    ensures SameCompacted(a, b) <==> forall k :: Cleared(Child(a, k)) == Cleared(Child(b, k))
  {
    var c, d := CompactHash(a), CompactHash(b);
    forall k
      ensures Child(c, k) == Cleared(Child(a, k)) && (k in c <==> !Blank(Child(c, k)))
      ensures Child(d, k) == Cleared(Child(b, k)) && (k in d <==> !Blank(Child(d, k)))
    {
      EntryOfCompact(a, k);
      EntryOfCompact(b, k);
    }
    if forall k :: Cleared(Child(a, k)) == Cleared(Child(b, k)) {
      assert forall k :: Child(c, k) == Child(d, k);
      assert c == d;
    }
  }

  /** Two updates at one path end alike exactly when what they put there clears alike. */
  lemma {:induction false} MergeAlike(h: Hash, p: Path, x: Value, y: Value)
    requires HashPath(h, p) && Merge(h, p, x).Success? && Merge(h, p, y).Success?
    requires Cleared(Merged(Find(Obj(h), p), x)) == Cleared(Merged(Find(Obj(h), p), y))
    ensures SameCompacted(Merge(h, p, x).value, Merge(h, p, y).value)
    decreases |p|
  {
    if p == [] {
      HashIsCleared(h + x.fields);
      HashIsCleared(h + y.fields);
    } else if |p| == 1 {
      assert p[1..] == [];
      ReplaceEntry(h, h, p[0], Merged(Find(Obj(h), p), x), Merged(Find(Obj(h), p), y));
    } else {
      hide Compact, Kept, Cleared, CompactHash, Merge;
      var child := Child(h, p[0]);
      MergeStep(h, p, x);
      MergeStep(h, p, y);
      assert Find(Obj(h), p) == Find(child, p[1..]);
      MergeAlike(child.fields, p[1..], x, y);
      var m, n := Merge(child.fields, p[1..], x).value, Merge(child.fields, p[1..], y).value;
      HashIsCleared(m);
      HashIsCleared(n);
      ReplaceEntry(h, h, p[0], Obj(m), Obj(n));
    }
  }

  lemma UpdateAlikeIff(h: Hash, p: Path, x: Value, y: Value)
    requires HashPath(h, p) && Update(h, p, x).Success? && Update(h, p, y).Success?
    ensures Update(h, p, x) == Update(h, p, y)
       <==> Cleared(Merged(Find(Obj(h), p), x)) == Cleared(Merged(Find(Obj(h), p), y))
  {
    hide Compact, Kept, Cleared, CompactHash, Merge, Find;
    PutGet(h, p, x);
    PutGet(h, p, y);
    if Cleared(Merged(Find(Obj(h), p), x)) == Cleared(Merged(Find(Obj(h), p), y)) {
      MergeAlike(h, p, x, y);
    }
  }
}
