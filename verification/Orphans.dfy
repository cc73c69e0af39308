/**
 Orphan pruning of the clone root (src/gitscan.py:453-506) and what enumeration
 guarantees about it (src/main.py:239-247).
 */
module Orphans {
  import opened Prelude
  import opened Strings
  import opened Forge

  datatype Head = NoHead | RegularHead | OddHead

  datatype Node = Directory(head: Head) | NotADirectory

  predicate EndsWith(s: string, suffix: string) {
    |suffix| <= |s| && s[|s| - |suffix|..] == suffix
  }

  const MIRROR_SUFFIX := ".git"
  const LITTER_SUFFIX := ".git.tmp"

  function MirrorName(name: string): string {
    name + MIRROR_SUFFIX
  }

  predicate Live(entry: string, live: seq<string>) {
    exists name :: name in live && entry == MirrorName(name)
  }

  predicate IsLitter(entry: string, node: Node) {
    node.Directory? && EndsWith(entry, LITTER_SUFFIX)
  }

  /** Only a directory that looks like a bare mirror is assumed to be one. */
  predicate IsMirror(entry: string, node: Node) {
    node == Directory(RegularHead) && EndsWith(entry, MIRROR_SUFFIX)
  }

  predicate OrphanMirror(root: map<string, Node>, live: seq<string>, entry: string) {
    entry in root && !Live(entry, live) && IsMirror(entry, root[entry])
  }

  predicate Swept(root: map<string, Node>, live: seq<string>, entry: string) {
    entry in root && !Live(entry, live) && (IsLitter(entry, root[entry]) || IsMirror(entry, root[entry]))
  }

  ghost predicate Ascending(xs: seq<string>) {
    forall i, j :: 0 <= i < j < |xs| ==> Less(xs[i], xs[j])
  }

  /** `entry[: -len(".git")]` */
  function BaseName(entry: string): string {
    if |entry| >= |MIRROR_SUFFIX| then entry[..|entry| - |MIRROR_SUFFIX|] else ""
  }

  function BaseNames(entries: seq<string>): seq<string> {
    if |entries| == 0 then [] else BaseNames(entries[..|entries| - 1]) + [BaseName(entries[|entries| - 1])]
  }

  // ------------------------------------------------------------ sorting

  lemma InsertedInOrder(xs: seq<string>, i: nat, x: string)
    requires i <= |xs| && Ascending(xs) && x !in xs
    requires forall j :: 0 <= j < i ==> Less(xs[j], x)
    requires i < |xs| ==> !Less(xs[i], x)
    ensures Ascending(xs[..i] + [x] + xs[i..])
    ensures forall y :: y in xs[..i] + [x] + xs[i..] <==> y in xs || y == x
  {
    hide Less;
    assert xs == xs[..i] + xs[i..];
    forall j | i <= j < |xs| ensures Less(x, xs[j]) {
      LessIsTotal(xs[i], x);
      assert xs[i] in xs;
      if i < j {
        LessIsTransitive(x, xs[i], xs[j]);
      }
    }
  }

  /** `sorted(os.listdir(root))` */
  method SortedEntries(entries: set<string>) returns (out: seq<string>)
    ensures Ascending(out) && Elements(out) == entries
  {
    hide Less;
    out := [];
    var todo := entries;
    while todo != {}
      invariant todo <= entries && Ascending(out)
      invariant forall x :: x in out <==> x in entries - todo
      decreases todo
    {
      var x :| x in todo;
      var i := 0;
      while i < |out| && Less(out[i], x)
        invariant 0 <= i <= |out|
        invariant forall j :: 0 <= j < i ==> Less(out[j], x)
      {
        i := i + 1;
      }
      InsertedInOrder(out, i, x);
      out := out[..i] + [x] + out[i..];
      todo := todo - {x};
    }
  }

  // ------------------------------------------------------------ pruning

  class CloneRoot {
    var entries: map<string, Node>
    /** Removals that left something behind. */
    ghost var stuck: nat

    constructor (entries: map<string, Node>)
      ensures this.entries == entries && stuck == 0
    {
      this.entries, stuck := entries, 0;
    }

    /** `shutil.rmtree(path, ignore_errors=True)` */
    method RemoveTree(entry: string)
      requires entry in entries
      modifies this
      ensures old(stuck) <= stuck
      ensures stuck == old(stuck) ==> entry !in entries
      ensures forall e :: e != entry ==> Lookup(entries, e) == Lookup(old(entries), e)
    {
      if * {
        entries := map e | e in entries && e != entry :: entries[e];
      } else {
        stuck := stuck + 1;
        var head :| true;
        entries := entries[entry := Directory(head)];
      }
    }

    /** One entry of the walk; says whether it was an orphaned mirror. */
    method SweepEntry(entry: string, live: seq<string>) returns (mirror: bool)
      requires entry in entries
      modifies this
      ensures mirror == OrphanMirror(old(entries), live, entry)
      ensures old(stuck) <= stuck
      ensures forall e :: e != entry || !Swept(old(entries), live, e) ==> Lookup(entries, e) == Lookup(old(entries), e)
      ensures Swept(old(entries), live, entry) && stuck == old(stuck) ==> entry !in entries
    {
      hide EndsWith, Live;
      var node := entries[entry];
      if Live(entry, live) || !node.Directory? {
        return false;
      }
      if EndsWith(entry, LITTER_SUFFIX) {
        SuffixesDiffer(entry);
        RemoveTree(entry);
        return false;
      }
      if EndsWith(entry, MIRROR_SUFFIX) && node.head == RegularHead {
        RemoveTree(entry);
        return true;
      }
      return false;
    }

    /** `prune_orphans`; a clone root that is not there yet cannot be listed. */
    method PruneOrphans(live: seq<string>, listable: bool) returns (pruned: seq<string>, ghost removed: seq<string>)
      modifies this
      ensures old(stuck) <= stuck
      ensures live == [] || !listable ==> pruned == [] && entries == old(entries)
      ensures live != [] && listable ==>
                && Ascending(removed) && (forall e :: e in removed <==> OrphanMirror(old(entries), live, e))
                && pruned == BaseNames(removed)
      ensures forall e :: !Swept(old(entries), live, e) ==> Lookup(entries, e) == Lookup(old(entries), e)
      ensures live != [] && listable && stuck == old(stuck) ==> forall e :: Swept(old(entries), live, e) ==>
                Lookup(entries, e) == None
    {
      hide Less, Swept, OrphanMirror;
      pruned, removed := [], [];
      if live == [] || !listable {
        return;
      }
      ghost var before := entries;
      var names := SortedEntries(entries.Keys);
      for i := 0 to |names|
        invariant old(stuck) <= stuck
        invariant Ascending(removed) && (forall e :: e in removed <==> e in names[..i] && OrphanMirror(before, live, e))
        invariant pruned == BaseNames(removed)
        invariant forall e :: !(e in names[..i] && Swept(before, live, e)) ==> Lookup(entries, e) == Lookup(before, e)
        invariant stuck == old(stuck) ==> forall e :: e in names[..i] && Swept(before, live, e) ==>
                    Lookup(entries, e) == None
      {
        var entry := names[i];
        assert names[..i + 1] == names[..i] + [entry];
        NotYetVisited(names, i);
        assert Lookup(entries, entry) == Lookup(before, entry);
        assert entry in Elements(names);
        SweptIsLocal(before, entries, live, entry);
        var mirror := SweepEntry(entry, live);
        if mirror {
          AppendAscending(removed, entry, names, i);
          assert (removed + [entry])[..|removed|] == removed;
          pruned := pruned + [BaseName(entry)];
          removed := removed + [entry];
        }
      }
      assert names[..|names|] == names;
      SweptIsListed(before, live, names);
    }
  }

  /** Whether an entry goes depends on that entry alone. */
  lemma SweptIsLocal(a: map<string, Node>, b: map<string, Node>, live: seq<string>, entry: string)
    requires Lookup(a, entry) == Lookup(b, entry)
    ensures Swept(a, live, entry) <==> Swept(b, live, entry)
    ensures OrphanMirror(a, live, entry) <==> OrphanMirror(b, live, entry)
  {}

  lemma SweptIsListed(root: map<string, Node>, live: seq<string>, names: seq<string>)
    requires Elements(names) == root.Keys
    ensures forall e :: Swept(root, live, e) || OrphanMirror(root, live, e) ==> e in names
  {
    forall e | Swept(root, live, e) || OrphanMirror(root, live, e) ensures e in names {
      assert e in Elements(names);
    }
  }

  lemma NotYetVisited(names: seq<string>, i: nat)
    requires Ascending(names) && i < |names|
    ensures names[i] !in names[..i]
    ensures forall e :: e in names[..i] ==> Less(e, names[i])
  {
    hide Less;
    LessIsTotal(names[i], names[i]);
  }

  lemma AppendAscending(removed: seq<string>, entry: string, names: seq<string>, i: nat)
    requires Ascending(removed) && Ascending(names) && i < |names| && entry == names[i]
    requires forall e :: e in removed ==> e in names[..i]
    ensures Ascending(removed + [entry])
  {
    hide Less;
    NotYetVisited(names, i);
  }

  lemma SuffixesDiffer(entry: string)
    requires EndsWith(entry, LITTER_SUFFIX)
    ensures !EndsWith(entry, MIRROR_SUFFIX)
  {
    LastCharacter(entry, LITTER_SUFFIX);
    LastCharacter(entry, MIRROR_SUFFIX);
  }

  lemma LastCharacter(s: string, suffix: string)
    requires suffix != ""
    ensures EndsWith(s, suffix) ==> |s| > 0 && s[|s| - 1] == suffix[|suffix| - 1]
  {
    assert EndsWith(s, suffix) ==> s[|s| - 1] == s[|s| - |suffix|..][|suffix| - 1];
  }

  // ------------------------------------------------------------ what is protected

  lemma LiveByName(name: string, live: seq<string>)
    ensures Live(MirrorName(name), live) <==> name in live
  {
    if Live(MirrorName(name), live) {
      var other :| other in live && MirrorName(name) == MirrorName(other);
      assert name == MirrorName(name)[..|name|] == MirrorName(other)[..|other|] == other;
    }
  }

  function Names(repos: seq<Repo>): seq<string> {
    seq(|repos|, i requires 0 <= i < |repos| => repos[i].name)
  }

  /**
   Enumeration, then pruning: of the well-formed mirrors exactly those survive
   whose repository the forge lists as non-empty and which nobody denied --
   unless there is no such repository, when every mirror survives.
   */
  lemma MirrorsFollowTheListing(repos: seq<Repo>, denied: seq<string>, root: map<string, Node>, name: string)
    requires Unique(repos) && Lookup(root, MirrorName(name)) == Some(Directory(RegularHead))
    ensures var live := Names(Wanted(repos, denied));
            live != [] ==> (Swept(root, live, MirrorName(name)) <==>
                forall r :: r in repos && r.name == name ==> r.empty || r.name in denied)
  {
    hide Wanted, EndsWith, Live;
    var wanted := Wanted(repos, denied);
    WantedExactly(repos, denied);
    LiveByName(name, Names(wanted));
    MirrorNamesEndWell(name);
    if name in Names(wanted) {
      var i :| 0 <= i < |wanted| && wanted[i].name == name;
      assert wanted[i] in repos;
    }
    if r :| r in repos && r.name == name && !r.empty && r.name !in denied {
      var i :| 0 <= i < |wanted| && wanted[i] == r;
      assert Names(wanted)[i] == name;
    }
  }

  /** What pruning reports is the repository's name again. */
  lemma ReportedByName(name: string)
    ensures BaseName(name + ".git") == name
  {
    assert (name + ".git")[..|name|] == name;
  }

  /**
   A directory that ends in `.git.tmp` is litter whatever is live; what ends in
   neither suffix, is no directory, or is no bare mirror, stays.
   */
  lemma LitterGoesOthersStay(root: map<string, Node>, live: seq<string>, name: string, entry: string)
    ensures Lookup(root, name + ".git.tmp").Some? && root[name + ".git.tmp"].Directory? ==>
              Swept(root, live, name + ".git.tmp")
    ensures entry in root && root[entry].NotADirectory? ==> !Swept(root, live, entry)
    ensures entry in root && !EndsWith(entry, ".git") && !EndsWith(entry, ".git.tmp") ==> !Swept(root, live, entry)
    ensures entry in root && root[entry] != Directory(RegularHead) && !EndsWith(entry, ".git.tmp") ==>
              !Swept(root, live, entry)
  {
    var litter := name + ".git.tmp";
    assert EndsWith(litter, LITTER_SUFFIX) by {
      assert litter[|litter| - 8..] == ".git.tmp";
    }
    SuffixesDiffer(litter);
    if Live(litter, live) {
      var other :| other in live && litter == MirrorName(other);
      MirrorNamesEndWell(other);
    }
  }

  lemma MirrorNamesEndWell(name: string)
    ensures EndsWith(MirrorName(name), MIRROR_SUFFIX)
  {}
}
