/** linkBytecode: splicing library addresses into a contract's hexadecimal bytecode. */
module Linker {

  datatype Fixup = Fixup(start: nat, length: nat)
  datatype LibraryReferences = LibraryReferences(name: string, fixups: seq<Fixup>)
  datatype FileReferences = FileReferences(file: string, libraries: seq<LibraryReferences>)
  datatype Artifact = Artifact(bytecode: string, linkReferences: seq<FileReferences>)

  type Libraries = map<string, string>

  function Min(x: nat, y: nat): nat {
    if x < y then x else y
  }

  // s.substr(0, n) and s.substr(from); both tolerate positions past the end.
  function Head(s: string, n: nat): string {
    s[..Min(n, |s|)]
  }

  function Tail(s: string, from: nat): string {
    s[Min(from, |s|)..]
  }

  function Splice(bytecode: string, fixup: Fixup, addr: string): string {
    Head(bytecode, 2 + fixup.start * 2) + Tail(addr, 2) + Tail(bytecode, 2 + (fixup.start + fixup.length) * 2)
  }

  // One place of the bytecode that waits for a library's address.
  datatype Site = Site(library: string, fixup: Fixup) {
    // Whether the character at position p belongs to the place.
    predicate Covers(p: int) {
      2 + fixup.start * 2 <= p < 2 + (fixup.start + fixup.length) * 2
    }
  }

  function FixupSites(library: string, fixups: seq<Fixup>): (r: seq<Site>) {
    seq(|fixups|, k requires 0 <= k < |fixups| => Site(library, fixups[k]))
  }

  function LibrarySites(refs: seq<LibraryReferences>): seq<Site> {
    if refs == [] then [] else
      LibrarySites(refs[..|refs| - 1]) + FixupSites(refs[|refs| - 1].name, refs[|refs| - 1].fixups)
  }

  // Every site of an artifact, in the order the loops visit them.
  function Sites(refs: seq<FileReferences>): seq<Site> {
    if refs == [] then [] else Sites(refs[..|refs| - 1]) + LibrarySites(refs[|refs| - 1].libraries)
  }

  function LinkSites(bytecode: string, sites: seq<Site>, libraries: Libraries): string {
    if sites == [] then
      bytecode
    else
      var site := sites[|sites| - 1];
      var before := LinkSites(bytecode, sites[..|sites| - 1], libraries);
      if site.library in libraries then Splice(before, site.fixup, libraries[site.library]) else before
  }

  function Link(artifact: Artifact, libraries: Libraries): string {
    LinkSites(artifact.bytecode, Sites(artifact.linkReferences), libraries)
  }

  ghost predicate Mentions(refs: seq<FileReferences>, s: Site, i: int, j: int, k: int) {
    && 0 <= i < |refs| && 0 <= j < |refs[i].libraries| && 0 <= k < |refs[i].libraries[j].fixups|
    && s == Site(refs[i].libraries[j].name, refs[i].libraries[j].fixups[k])
  }

  ghost predicate Mentioned(refs: seq<FileReferences>, s: Site) {
    exists i, j, k :: Mentions(refs, s, i, j, k)
  }

  // What the compiler emits: the places mentioned lie inside the bytecode and different ones do not overlap.
  ghost predicate Emitted(artifact: Artifact) {
    var refs := artifact.linkReferences;
    && (forall s :: Mentioned(refs, s) ==> 2 + (s.fixup.start + s.fixup.length) * 2 <= |artifact.bytecode|)
    && (forall s, t, p: int :: Mentioned(refs, s) && Mentioned(refs, t) && s.Covers(p) && t.Covers(p) ==> s == t)
  }

  // Every supplied address has two digits a byte of the places mentioned for it, behind its "0x".
  ghost predicate Supplied(artifact: Artifact, libraries: Libraries) {
    forall s :: Mentioned(artifact.linkReferences, s) && s.library in libraries ==>
      |libraries[s.library]| == 2 + s.fixup.length * 2
  }

  // The place s gets the p-th character of the code.
  ghost predicate Fills(artifact: Artifact, libraries: Libraries, s: Site, p: int) {
    Mentioned(artifact.linkReferences, s) && s.library in libraries && s.Covers(p)
  }

  // Each place mentioned for a supplied library holds its address' digits, in order, and every other character is
  // the artifact's.
  ghost predicate IsLinked(artifact: Artifact, libraries: Libraries, code: string) {
    && |code| == |artifact.bytecode|
    && (forall s, p: int :: Fills(artifact, libraries, s, p) ==>
          && 0 <= p - s.fixup.start * 2 < |libraries[s.library]| && p < |code|
          && code[p] == libraries[s.library][p - s.fixup.start * 2])
    && (forall p :: 0 <= p < |code| && (forall s :: !Fills(artifact, libraries, s, p)) ==>
          code[p] == artifact.bytecode[p])
  }

  lemma {:induction false} LinkInTwoParts(bytecode: string, first: seq<Site>, second: seq<Site>, libraries: Libraries)
    ensures LinkSites(bytecode, first + second, libraries) ==
            LinkSites(LinkSites(bytecode, first, libraries), second, libraries)
  {
    if second == [] {
      assert first + second == first;
    } else {
      var n := |second| - 1;
      assert (first + second)[..|first + second| - 1] == first + second[..n];
      LinkInTwoParts(bytecode, first, second[..n], libraries);
    }
  }

  /** The three nested loops. A library that was not supplied is skipped with all its fixups. */
  method LinkBytecode(artifact: Artifact, libraries: Libraries) returns (bytecode: string)
    ensures bytecode == Link(artifact, libraries)
    ensures Emitted(artifact) && Supplied(artifact, libraries) ==> IsLinked(artifact, libraries, bytecode)
    ensures NoneSupplied(artifact, libraries) ==> bytecode == artifact.bytecode
  {
    bytecode := artifact.bytecode;
    var refs := artifact.linkReferences;
    for i := 0 to |refs|
      invariant bytecode == LinkSites(artifact.bytecode, Sites(refs[..i]), libraries)
    {
      ghost var beforeFile := bytecode;
      var libs := refs[i].libraries;
      for j := 0 to |libs|
        invariant bytecode == LinkSites(beforeFile, LibrarySites(libs[..j]), libraries)
      {
        ghost var beforeLibrary := bytecode;
        var name, fixups := libs[j].name, libs[j].fixups;
        LibraryStep(beforeFile, libs, j, libraries);
        if name !in libraries {
          SkippedSites(beforeLibrary, name, fixups, libraries);
          continue;
        }
        var addr := libraries[name];
        for k := 0 to |fixups|
          invariant bytecode == LinkSites(beforeLibrary, FixupSites(name, fixups[..k]), libraries)
        {
          FixupStep(beforeLibrary, name, fixups, k, libraries);
          bytecode := Splice(bytecode, fixups[k], addr);
        }
        assert fixups[..|fixups|] == fixups;
      }
      assert libs[..|libs|] == libs;
      FileStep(artifact.bytecode, refs, i, libraries);
    }
    assert refs[..|refs|] == refs;
    if Emitted(artifact) && Supplied(artifact, libraries) {
      LinkIsLinked(artifact, libraries);
    }
    if NoneSupplied(artifact, libraries) {
      NothingLinked(artifact, libraries);
    }
  }

  lemma FileStep(bytecode: string, refs: seq<FileReferences>, i: nat, libraries: Libraries)
    requires i < |refs|
    ensures LinkSites(bytecode, Sites(refs[..i + 1]), libraries) ==
            LinkSites(LinkSites(bytecode, Sites(refs[..i]), libraries), LibrarySites(refs[i].libraries), libraries)
  {
    assert refs[..i + 1][..i] == refs[..i];
    LinkInTwoParts(bytecode, Sites(refs[..i]), LibrarySites(refs[i].libraries), libraries);
  }

  lemma LibraryStep(bytecode: string, libs: seq<LibraryReferences>, j: nat, libraries: Libraries)
    requires j < |libs|
    ensures LinkSites(bytecode, LibrarySites(libs[..j + 1]), libraries) ==
            LinkSites(LinkSites(bytecode, LibrarySites(libs[..j]), libraries),
                      FixupSites(libs[j].name, libs[j].fixups), libraries)
  {
    assert libs[..j + 1][..j] == libs[..j];
    LinkInTwoParts(bytecode, LibrarySites(libs[..j]), FixupSites(libs[j].name, libs[j].fixups), libraries);
  }

  lemma FixupStep(bytecode: string, name: string, fixups: seq<Fixup>, k: nat, libraries: Libraries)
    requires k < |fixups| && name in libraries
    ensures LinkSites(bytecode, FixupSites(name, fixups[..k + 1]), libraries) ==
            Splice(LinkSites(bytecode, FixupSites(name, fixups[..k]), libraries), fixups[k], libraries[name])
  {
    assert FixupSites(name, fixups[..k + 1])[..k] == FixupSites(name, fixups[..k]);
  }

  lemma {:induction false} SkippedSites(bytecode: string, name: string, fixups: seq<Fixup>, libraries: Libraries)
    requires name !in libraries
    ensures LinkSites(bytecode, FixupSites(name, fixups), libraries) == bytecode
  {
    if fixups != [] {
      var n := |fixups| - 1;
      assert FixupSites(name, fixups)[..n] == FixupSites(name, fixups[..n]);
      SkippedSites(bytecode, name, fixups[..n], libraries);
    }
  }

  // What the compiler emits: sites lie inside the bytecode and different sites do not overlap.
  ghost predicate WellFormed(bytecode: string, sites: seq<Site>) {
    && (forall s :: s in sites ==> 2 + (s.fixup.start + s.fixup.length) * 2 <= |bytecode|)
    && (forall s, t, p: int :: s in sites && t in sites && s.Covers(p) && t.Covers(p) ==> s == t)
  }

  // Every supplied address has two digits a byte of the places it goes to, behind its "0x".
  ghost predicate Fits(sites: seq<Site>, libraries: Libraries) {
    forall s :: s in sites && s.library in libraries ==> |libraries[s.library]| == 2 + s.fixup.length * 2
  }

  ghost predicate Linked(s: Site, sites: seq<Site>, libraries: Libraries, p: int) {
    s in sites && s.library in libraries && s.Covers(p)
  }

  // The outcome of linking, character by character and without an order.
  ghost predicate HasAddresses(bytecode: string, sites: seq<Site>, libraries: Libraries, linked: string) {
    && |linked| == |bytecode|
    && (forall s, p: int :: Linked(s, sites, libraries, p) ==>
                         0 <= p - s.fixup.start * 2 < |libraries[s.library]| && p < |linked| &&
                         linked[p] == libraries[s.library][p - s.fixup.start * 2])
    && (forall p :: 0 <= p < |linked| && (forall s :: !Linked(s, sites, libraries, p)) ==> linked[p] == bytecode[p])
  }

  /** Linking writes each supplied library's digits at each of its places and nothing anywhere else. */
  lemma {:induction false} LinkWritesAddresses(bytecode: string, sites: seq<Site>, libraries: Libraries)
    requires WellFormed(bytecode, sites) && Fits(sites, libraries)
    ensures HasAddresses(bytecode, sites, libraries, LinkSites(bytecode, sites, libraries))
  {
    if sites != [] {
      var n := |sites| - 1;
      var site, rest := sites[n], sites[..n];
      var before, after := LinkSites(bytecode, rest, libraries), LinkSites(bytecode, sites, libraries);
      assert forall s :: s in sites <==> s in rest || s == site;
      LinkWritesAddresses(bytecode, rest, libraries);
      if site.library in libraries {
        SpliceWrites(before, site, libraries[site.library]);
      }
      forall s, p: int | Linked(s, sites, libraries, p)
        ensures 0 <= p - s.fixup.start * 2 < |libraries[s.library]| && p < |after|
        ensures after[p] == libraries[s.library][p - s.fixup.start * 2]
      {
        if s in rest {
          assert Linked(s, rest, libraries, p);
        }
      }
      forall p | 0 <= p < |after| && (forall s :: !Linked(s, sites, libraries, p))
        ensures after[p] == bytecode[p]
      {
        assert !Linked(site, sites, libraries, p);
        forall s ensures !Linked(s, rest, libraries, p) { assert !Linked(s, sites, libraries, p); }
      }
    }
  }

  lemma SpliceWrites(bytecode: string, site: Site, addr: string)
    requires 2 + (site.fixup.start + site.fixup.length) * 2 <= |bytecode|
    requires |addr| == 2 + site.fixup.length * 2
    ensures var spliced := Splice(bytecode, site.fixup, addr);
            && |spliced| == |bytecode|
            && forall p :: 0 <= p < |spliced| ==>
                 spliced[p] == if site.Covers(p) then addr[p - site.fixup.start * 2] else bytecode[p]
  {
  }

  /** There is only one such outcome. */
  lemma OutcomeIsUnique(bytecode: string, sites: seq<Site>, libraries: Libraries, x: string, y: string)
    requires HasAddresses(bytecode, sites, libraries, x) && HasAddresses(bytecode, sites, libraries, y)
    ensures x == y
  {
    forall p | 0 <= p < |x| ensures x[p] == y[p] {
      if s :| Linked(s, sites, libraries, p) {
      }
    }
  }

  /** The order in which files, libraries and fixups are visited does not matter. */
  lemma AnyOrder(bytecode: string, sites: seq<Site>, reordered: seq<Site>, libraries: Libraries)
    requires WellFormed(bytecode, sites) && Fits(sites, libraries)
    requires forall s :: s in sites <==> s in reordered
    ensures LinkSites(bytecode, reordered, libraries) == LinkSites(bytecode, sites, libraries)
  {
    LinkWritesAddresses(bytecode, sites, libraries);
    LinkWritesAddresses(bytecode, reordered, libraries);
    assert forall s, p: int :: Linked(s, sites, libraries, p) <==> Linked(s, reordered, libraries, p);
    OutcomeIsUnique(bytecode, sites, libraries, LinkSites(bytecode, sites, libraries),
                    LinkSites(bytecode, reordered, libraries));
  }

  /** An artifact's sites are what its link references mention, wherever they mention it. */
  lemma {:induction false} SitesAreMentions(refs: seq<FileReferences>, s: Site)
    ensures s in Sites(refs) <==> Mentioned(refs, s)
  {
    if refs != [] {
      var n := |refs| - 1;
      SitesAreMentions(refs[..n], s);
      LibrarySitesAreMentions(refs[n].libraries, s);
      if s in Sites(refs[..n]) {
        var i, j, k :| Mentions(refs[..n], s, i, j, k);
        assert Mentions(refs, s, i, j, k);
      } else if s in LibrarySites(refs[n].libraries) {
        var j, k :| InLibrary(refs[n].libraries, s, j, k);
        assert Mentions(refs, s, n, j, k);
      }
      if i, j, k :| Mentions(refs, s, i, j, k) {
        if i < n {
          assert Mentions(refs[..n], s, i, j, k);
        } else {
          assert InLibrary(refs[n].libraries, s, j, k);
        }
      }
    }
  }

  ghost predicate InLibrary(libs: seq<LibraryReferences>, s: Site, j: int, k: int) {
    && 0 <= j < |libs| && 0 <= k < |libs[j].fixups|
    && s == Site(libs[j].name, libs[j].fixups[k])
  }

  lemma {:induction false} LibrarySitesAreMentions(libs: seq<LibraryReferences>, s: Site)
    ensures s in LibrarySites(libs) <==> exists j, k :: InLibrary(libs, s, j, k)
  {
    if libs != [] {
      var n := |libs| - 1;
      var last := FixupSites(libs[n].name, libs[n].fixups);
      LibrarySitesAreMentions(libs[..n], s);
      if s in LibrarySites(libs[..n]) {
        var j, k :| InLibrary(libs[..n], s, j, k);
        assert InLibrary(libs, s, j, k);
      } else if s in last {
        var k :| 0 <= k < |last| && last[k] == s;
        assert InLibrary(libs, s, n, k);
      }
      if j, k :| InLibrary(libs, s, j, k) {
        if j < n {
          assert InLibrary(libs[..n], s, j, k);
        } else {
          assert last[k] == s;
        }
      }
    }
  }

  /** Linking an artifact puts the supplied addresses where its references mention them, and nothing else anywhere. */
  lemma LinkIsLinked(artifact: Artifact, libraries: Libraries)
    requires Emitted(artifact) && Supplied(artifact, libraries)
    ensures IsLinked(artifact, libraries, Link(artifact, libraries))
  {
    hide Mentioned, LinkSites, Sites;
    var sites, code := Sites(artifact.linkReferences), Link(artifact, libraries);
    forall s ensures s in sites <==> Mentioned(artifact.linkReferences, s) {
      SitesAreMentions(artifact.linkReferences, s);
    }
    LinkWritesAddresses(artifact.bytecode, sites, libraries);
    forall s, p: int ensures Fills(artifact, libraries, s, p) <==> Linked(s, sites, libraries, p) {}
    forall p | 0 <= p < |code| && (forall s :: !Fills(artifact, libraries, s, p))
      ensures code[p] == artifact.bytecode[p]
    {
      forall s ensures !Linked(s, sites, libraries, p) { assert !Fills(artifact, libraries, s, p); }
    }
  }

  /** Two artifacts with the same bytecode whose references mention the same sites, in whatever order and
      grouping, link to the same code. */
  lemma ReorderedReferences(a: Artifact, b: Artifact, libraries: Libraries)
    requires a.bytecode == b.bytecode
    requires WellFormed(a.bytecode, Sites(a.linkReferences)) && Fits(Sites(a.linkReferences), libraries)
    requires forall s :: Mentioned(a.linkReferences, s) <==> Mentioned(b.linkReferences, s)
    ensures Link(a, libraries) == Link(b, libraries)
  {
    forall s ensures s in Sites(a.linkReferences) <==> s in Sites(b.linkReferences) {
      SitesAreMentions(a.linkReferences, s);
      SitesAreMentions(b.linkReferences, s);
    }
    AnyOrder(a.bytecode, Sites(a.linkReferences), Sites(b.linkReferences), libraries);
  }

  /** Linking in two stages is linking once with both maps, the later stage winning on a shared name;
      in particular linking again with the same map changes nothing. */
  lemma StagedLinking(artifact: Artifact, first: Libraries, second: Libraries)
    requires var sites := Sites(artifact.linkReferences);
             WellFormed(artifact.bytecode, sites) && Fits(sites, first) && Fits(sites, second)
    ensures Link(artifact.(bytecode := Link(artifact, first)), second) == Link(artifact, first + second)
    ensures Link(artifact.(bytecode := Link(artifact, first)), first) == Link(artifact, first)
  {
    TwoStages(artifact, first, second);
    TwoStages(artifact, first, first);
    assert first + first == first;
  }

  lemma TwoStages(artifact: Artifact, first: Libraries, second: Libraries)
    requires var sites := Sites(artifact.linkReferences);
             WellFormed(artifact.bytecode, sites) && Fits(sites, first) && Fits(sites, second)
    ensures Link(artifact.(bytecode := Link(artifact, first)), second) == Link(artifact, first + second)
  {
    var b, sites, both := artifact.bytecode, Sites(artifact.linkReferences), first + second;
    var once := Link(artifact, first);
    var twice := LinkSites(once, sites, second);
    LinkWritesAddresses(b, sites, first);
    LinkWritesAddresses(once, sites, second);
    LinkWritesAddresses(b, sites, both);
    forall s, p: int | Linked(s, sites, both, p)
      ensures 0 <= p - s.fixup.start * 2 < |both[s.library]| && p < |twice|
      ensures twice[p] == both[s.library][p - s.fixup.start * 2]
    {
      if s.library in second {
        assert Linked(s, sites, second, p);
      } else {
        assert Linked(s, sites, first, p);
        forall t ensures !Linked(t, sites, second, p) {}
      }
    }
    forall p | 0 <= p < |twice| && (forall s :: !Linked(s, sites, both, p))
      ensures twice[p] == b[p]
    {
      forall s ensures !Linked(s, sites, first, p) && !Linked(s, sites, second, p) {
        assert !Linked(s, sites, both, p);
      }
    }
    OutcomeIsUnique(b, sites, both, twice, Link(artifact, both));
  }

  /** With no library supplied that a site waits for, the bytecode comes back, whatever the sites are. */
  lemma {:induction false} NothingToLink(bytecode: string, sites: seq<Site>, libraries: Libraries)
    requires forall s :: s in sites ==> s.library !in libraries
    ensures LinkSites(bytecode, sites, libraries) == bytecode
  {
    if sites != [] {
      NothingToLink(bytecode, sites[..|sites| - 1], libraries);
    }
  }

  // No library is supplied that the references mention.
  ghost predicate NoneSupplied(artifact: Artifact, libraries: Libraries) {
    forall s :: Mentioned(artifact.linkReferences, s) ==> s.library !in libraries
  }

  lemma NothingLinked(artifact: Artifact, libraries: Libraries)
    requires NoneSupplied(artifact, libraries)
    ensures Link(artifact, libraries) == artifact.bytecode
  {
    forall s | s in Sites(artifact.linkReferences) ensures s.library !in libraries {
      SitesAreMentions(artifact.linkReferences, s);
    }
    NothingToLink(artifact.bytecode, Sites(artifact.linkReferences), libraries);
  }
}
