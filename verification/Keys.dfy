/**
 Object keys below the destination prefix (src/publish.py:405, 442, 549-550, 663-669).

 The protocol only ever builds `<prefix>/<name>` and `<prefix>/cycles/<id>/<name>`
 and only ever lists the children of `<prefix>/cycles/` and of one cycle. The
 other modules therefore work on structured keys; this one proves that the
 structure is exact: every key string is one structured key, rendering loses
 nothing, and the two string-prefix listings are the two structured ones.
 */
module Keys {
  import opened Prelude

  datatype Key =
    | Fixed(name: string)                  // <prefix>/<name>
    | CycleObj(id: string, name: string)   // <prefix>/cycles/<id>/<name>
    | Foreign(path: string)                // anything else in the bucket

  predicate StartsWith(s: string, p: string) {
    |p| <= |s| && s[..|p|] == p
  }

  /** Characters before the first `/`, or all of them. */
  function FirstSegment(s: string): string {
    if s == "" || s[0] == '/' then "" else [s[0]] + FirstSegment(s[1..])
  }

  function Render(p: string, k: Key): string {
    match k
    case Fixed(name) => p + "/" + name
    case CycleObj(id, name) => p + "/cycles/" + id + "/" + name
    case Foreign(path) => path
  }

  /** The string prefix that holds one cycle's objects. */
  function CyclePrefix(p: string, id: string): string {
    p + "/cycles/" + id + "/"
  }

  function Below(p: string, rest: string): Option<Key> {
    if '/' !in rest then Some(Fixed(rest))
    else if StartsWith(rest, "cycles/") && '/' in rest[7..] then
      var id := FirstSegment(rest[7..]);
      FirstSegmentSplits(rest[7..]);
      Some(CycleObj(id, rest[7 + |id| + 1..]))
    else None
  }

  function Parse(p: string, s: string): Key {
    if StartsWith(s, p + "/") then
      match Below(p, s[|p| + 1..])
      case Some(k) => k
      case None => Foreign(s)
    else Foreign(s)
  }

  /** The keys that strings can denote. */
  predicate Canonical(p: string, k: Key) {
    match k
    case Fixed(name) => '/' !in name
    case CycleObj(id, _) => '/' !in id
    case Foreign(path) => Parse(p, path) == k
  }

  lemma {:induction false} FirstSegmentSplits(s: string)
    ensures '/' !in FirstSegment(s)
    ensures |FirstSegment(s)| <= |s| && s[..|FirstSegment(s)|] == FirstSegment(s)
    ensures '/' in s ==> |FirstSegment(s)| < |s| && s[|FirstSegment(s)|] == '/'
  {
    if s == "" || s[0] == '/' {
    } else {
      FirstSegmentSplits(s[1..]);
      var f := FirstSegment(s[1..]);
      assert s[..|f| + 1] == [s[0]] + s[1..][..|f|];
      if '/' in s {
        assert '/' in s[1..];
      }
    }
  }

  lemma {:induction false} FirstSegmentOf(id: string, rest: string)
    requires '/' !in id
    ensures FirstSegment(id + ("/" + rest)) == id
  {
    var s := id + ("/" + rest);
    if id == "" {
      assert s[0] == '/';
    } else {
      FirstSegmentOf(id[1..], rest);
      assert s[1..] == id[1..] + ("/" + rest);
      assert id == [id[0]] + id[1..];
    }
  }

  lemma BelowCycles(p: string, id: string, name: string)
    requires '/' !in id
    ensures Below(p, "cycles/" + (id + ("/" + name))) == Some(CycleObj(id, name))
  {
    var tail := id + ("/" + name);
    var rest := "cycles/" + tail;
    assert rest[7..] == tail && rest[..7] == "cycles/" && rest[6] == '/';
    assert tail[|id|] == '/';
    FirstSegmentOf(id, name);
    assert rest[7 + |id| + 1..] == name;
  }

  lemma CycleKeySplits(p: string, id: string, name: string)
    ensures Render(p, CycleObj(id, name)) == (p + "/") + ("cycles/" + (id + ("/" + name)))
  {
    assert p + "/cycles/" == (p + "/") + "cycles/";
  }

  lemma FirstSegmentJoins(tail: string) returns (id: string, name: string)
    requires '/' in tail
    ensures id == FirstSegment(tail) && '/' !in id && tail == id + ("/" + name)
  {
    FirstSegmentSplits(tail);
    id := FirstSegment(tail);
    name := tail[|id| + 1..];
    assert tail == tail[..|id|] + ([tail[|id|]] + tail[|id| + 1..]);
  }

  lemma BelowIsExact(p: string, rest: string)
    ensures match Below(p, rest)
            case Some(k) => Render(p, k) == (p + "/") + rest && !k.Foreign? && Canonical(p, k)
            case None => true
  {
    if '/' in rest && StartsWith(rest, "cycles/") && '/' in rest[7..] {
      var id, name := FirstSegmentJoins(rest[7..]);
      assert rest == rest[..7] + rest[7..];
      BelowCycles(p, id, name);
      CycleKeySplits(p, id, name);
    }
  }

  /** Every key string denotes exactly one canonical key, and is its rendering. */
  lemma RenderOfParse(p: string, s: string)
    ensures Render(p, Parse(p, s)) == s && Canonical(p, Parse(p, s))
  {
    if StartsWith(s, p + "/") {
      var rest := s[|p| + 1..];
      assert s == (p + "/") + rest;
      BelowIsExact(p, rest);
    }
  }

  /** Rendering is injective on canonical keys, because parsing undoes it. */
  lemma ParseOfRender(p: string, k: Key)
    requires Canonical(p, k)
    ensures Parse(p, Render(p, k)) == k
  {
    var s := Render(p, k);
    match k {
      case Fixed(name) =>
        assert s[..|p| + 1] == p + "/" && s[|p| + 1..] == name;
      case CycleObj(id, name) =>
        assert s == (p + "/") + ("cycles/" + (id + ("/" + name)));
        assert s[..|p| + 1] == p + "/" && s[|p| + 1..] == "cycles/" + (id + ("/" + name));
        BelowCycles(p, id, name);
      case Foreign(_) =>
    }
  }

  /**
   A LIST below one cycle's prefix returns that cycle's objects and nothing
   else, so pruning one cycle cannot reach a key of another.
   */
  lemma CycleListingIsExact(p: string, id: string, k: Key)
    requires '/' !in id && Canonical(p, k)
    ensures StartsWith(Render(p, k), CyclePrefix(p, id)) <==> k.CycleObj? && k.id == id
  {
    var s, pre := Render(p, k), CyclePrefix(p, id);
    if StartsWith(s, pre) {
      var name := s[|pre|..];
      assert s == pre + name;
      assert s == Render(p, CycleObj(id, name));
      ParseOfRender(p, CycleObj(id, name));
      ParseOfRender(p, k);
    }
    if k.CycleObj? && k.id == id {
      assert s[..|pre|] == pre;
    }
  }

  /** The child that a `/`-delimited LIST of `<prefix>/cycles/` groups a key under. */
  function CommonPrefixChild(p: string, s: string): Option<string> {
    var base := p + "/cycles/";
    if StartsWith(s, base) && '/' in s[|base|..] then Some(FirstSegment(s[|base|..])) else None
  }

  lemma ChildNamesItsCycle(p: string, s: string) returns (name: string)
    requires CommonPrefixChild(p, s).Some?
    ensures '/' !in CommonPrefixChild(p, s).value
    ensures s == Render(p, CycleObj(CommonPrefixChild(p, s).value, name))
  {
    hide FirstSegment;
    var base := p + "/cycles/";
    var tail := s[|base|..];
    var id;
    id, name := FirstSegmentJoins(tail);
    assert s == base + tail;
    assert base + (id + ("/" + name)) == Render(p, CycleObj(id, name));
  }

  /** The delimited LIST groups a key under its cycle id, and ignores all other keys. */
  lemma ChildListingIsExact(p: string, k: Key)
    requires Canonical(p, k)
    ensures CommonPrefixChild(p, Render(p, k)) == (if k.CycleObj? then Some(k.id) else None)
  {
    var s, base := Render(p, k), p + "/cycles/";
    if k.CycleObj? {
      assert s == base + (k.id + ("/" + k.name));
      assert s[|base|..] == k.id + ("/" + k.name);
      assert s[|base|..][|k.id|] == '/';
    }
    if CommonPrefixChild(p, s).Some? {
      var name := ChildNamesItsCycle(p, s);
      ParseOfRender(p, CycleObj(CommonPrefixChild(p, s).value, name));
      ParseOfRender(p, k);
    }
  }

  /** Distinct ids own disjoint key prefixes. */
  lemma CyclePrefixesAreDisjoint(p: string, a: string, b: string, s: string)
    requires '/' !in a && '/' !in b && a != b
    ensures !(StartsWith(s, CyclePrefix(p, a)) && StartsWith(s, CyclePrefix(p, b)))
  {
    RenderOfParse(p, s);
    CycleListingIsExact(p, a, Parse(p, s));
    CycleListingIsExact(p, b, Parse(p, s));
  }
}
