/** The registry of independent raw files (analysis/freeze_p9_guard.py, `EvidenceRegistry`).  The
    file system is a map from a relative path to the regular file it resolves to inside the
    campaign directory; every path the source refuses for another reason is absent from it. */
module Registry {
  import opened Common

  datatype File<C> = File(path: string, dev: int, ino: int, sha: string, content: C)

  datatype Claim = Claim(raw: string, kind: string, caseId: string, block: int)

  datatype Entry = Entry(path: string, claim: Claim, dev: int, ino: int, sha: string)

  function EntryOf<C>(files: map<string, File<C>>, claim: Claim): Entry
    requires claim.raw in files
  {
    var f := files[claim.raw];
    Entry(f.path, claim, f.dev, f.ino, f.sha)
  }

  /** No two entries share a path, an inode or a content hash. */
  ghost predicate Independent(manifest: seq<Entry>) {
    forall i, j :: 0 <= i < j < |manifest| ==>
      && manifest[i].path != manifest[j].path
      && (manifest[i].dev, manifest[i].ino) != (manifest[j].dev, manifest[j].ino)
      && manifest[i].sha != manifest[j].sha
  }

  function Paths(manifest: seq<Entry>): set<string> { set i | 0 <= i < |manifest| :: manifest[i].path }

  function Inodes(manifest: seq<Entry>): set<(int, int)> { set i | 0 <= i < |manifest| :: (manifest[i].dev,
      manifest[i].ino) }

  function Hashes(manifest: seq<Entry>): set<string> { set i | 0 <= i < |manifest| :: manifest[i].sha }

  lemma ProjectionsGrow(manifest: seq<Entry>, e: Entry)
    ensures Paths(manifest + [e]) == Paths(manifest) + {e.path}
    ensures Inodes(manifest + [e]) == Inodes(manifest) + {(e.dev, e.ino)}
    ensures Hashes(manifest + [e]) == Hashes(manifest) + {e.sha}
  {
    var more := manifest + [e];
    assert forall i :: 0 <= i < |manifest| ==> more[i] == manifest[i];
    assert more[|manifest|] == e;
    forall i | 0 <= i < |manifest|
      ensures manifest[i].path in Paths(more) && (manifest[i].dev, manifest[i].ino) in Inodes(more)
      ensures manifest[i].sha in Hashes(more)
    {
      assert more[i] == manifest[i];
    }
  }

  /** An independent manifest stays independent exactly when the new entry is in none of the sets. */
  lemma IndependentExtension(manifest: seq<Entry>, e: Entry)
    requires Independent(manifest)
    ensures Independent(manifest + [e]) <==>
      e.path !in Paths(manifest) && (e.dev, e.ino) !in Inodes(manifest) && e.sha !in Hashes(manifest)
  {
    var more := manifest + [e];
    assert forall i :: 0 <= i < |manifest| ==> more[i] == manifest[i];
    if Independent(more) {
      forall i | 0 <= i < |manifest|
        ensures manifest[i].path != e.path && (manifest[i].dev, manifest[i].ino) != (e.dev, e.ino)
        ensures manifest[i].sha != e.sha
      {
        assert more[i] == manifest[i] && more[|manifest|] == e;
      }
    }
  }

  lemma LastIsNew(front: seq<Entry>, last: Entry)
    requires Independent(front + [last])
    ensures Independent(front) && last.path !in Paths(front) && (last.dev, last.ino) !in Inodes(front)
    ensures last.sha !in Hashes(front)
  {
    var more := front + [last];
    forall i, j | 0 <= i < j < |front|
      ensures front[i].path != front[j].path && (front[i].dev, front[i].ino) != (front[j].dev, front[j].ino)
      ensures front[i].sha != front[j].sha
    {
      assert more[i] == front[i] && more[j] == front[j];
    }
    IndependentExtension(front, last);
  }

  lemma NothingProjected()
    ensures Paths([]) == {} && Inodes([]) == {} && Hashes([]) == {}
  {
  }

  lemma {:induction false} SizesOfIndependent(manifest: seq<Entry>)
    requires Independent(manifest)
    ensures |Paths(manifest)| == |Inodes(manifest)| == |Hashes(manifest)| == |manifest|
    decreases |manifest|
  {
    hide Independent, Paths, Inodes, Hashes;
    if manifest == [] {
      NothingProjected();
    } else {
      var front, last := manifest[..|manifest| - 1], manifest[|manifest| - 1];
      assert manifest == front + [last];
      LastIsNew(front, last);
      SizesOfIndependent(front);
      ProjectionsGrow(front, last);
    }
  }

  /** The manifest after trying claims in order, each rejected one leaving it as it was. */
  ghost function AfterClaims<C>(files: map<string, File<C>>, manifest: seq<Entry>, claims: seq<Claim>): seq<Entry> {
    if claims == [] then manifest else
      var before := AfterClaims(files, manifest, claims[..|claims| - 1]);
      var claim := claims[|claims| - 1];
      if claim.raw in files && Independent(before + [EntryOf(files, claim)]) then before + [EntryOf(files,
        claim)] else before
  }

  /** Over any sequence of claims the three identities stay pairwise distinct. */
  lemma {:induction false} AnyClaimsStayIndependent<C>(files: map<string, File<C>>, manifest: seq<Entry>,
      claims: seq<Claim>)
    requires Independent(manifest)
    ensures Independent(AfterClaims(files, manifest, claims)) && manifest <= AfterClaims(files, manifest, claims)
    decreases |claims|
  {
    if claims != [] {
      AnyClaimsStayIndependent(files, manifest, claims[..|claims| - 1]);
    }
  }

  class EvidenceRegistry<C> {
    const files: map<string, File<C>>
    var paths: set<string>
    var inodes: set<(int, int)>
    var hashes: set<string>
    var manifest: seq<Entry>

    /** The three sets are the projections of the manifest, and its entries are independent. */
    ghost predicate Valid()
      reads this
    {
      && Independent(manifest)
      && paths == Paths(manifest) && inodes == Inodes(manifest) && hashes == Hashes(manifest)
    }

    constructor (files: map<string, File<C>>)
      ensures Valid() && fresh(this) && manifest == [] && this.files == files
    {
      this.files := files;
      paths, inodes, hashes, manifest := {}, {}, {}, [];
    }

    /** `claim`: a file already registered under any of its three identities is refused, and a
        refused claim changes nothing. */
    method Claim(claim: Claim) returns (r: Option<File<C>>)
      requires Valid()
      modifies this
      ensures Valid()
      ensures r.Some? <==> claim.raw in files && Independent(old(manifest) + [EntryOf(files, claim)])
      ensures r.Some? ==> r.value == files[claim.raw] && manifest == old(manifest) + [EntryOf(files, claim)]
      ensures r.None? ==> unchanged(this)
    {
      if claim.raw !in files {
        return None;
      }
      var f := files[claim.raw];
      IndependentExtension(manifest, EntryOf(files, claim));
      if f.path in paths || (f.dev, f.ino) in inodes || f.sha in hashes {
        return None;
      }
      ProjectionsGrow(manifest, EntryOf(files, claim));
      paths := paths + {f.path};
      inodes := inodes + {(f.dev, f.ino)};
      hashes := hashes + {f.sha};
      manifest := manifest + [Entry(f.path, claim, f.dev, f.ino, f.sha)];
      r := Some(f);
    }
  }

  /** Trying any claims in any order, refused ones included, leaves the manifest that `AfterClaims`
      describes, and the three sets of the registry stay its pairwise distinct identities. */
  method ClaimEach<C>(registry: EvidenceRegistry<C>, claims: seq<Claim>)
    requires registry.Valid()
    modifies registry
    ensures registry.Valid() && registry.manifest == AfterClaims(registry.files, old(registry.manifest), claims)
    ensures old(registry.manifest) <= registry.manifest
  {
    ghost var manifest := registry.manifest;
    for k := 0 to |claims|
      invariant registry.Valid() && registry.manifest == AfterClaims(registry.files, manifest, claims[..k])
    {
      assert claims[..k + 1][..k] == claims[..k];
      var _ := registry.Claim(claims[k]);
    }
    assert claims[..|claims|] == claims;
    AnyClaimsStayIndependent(registry.files, manifest, claims);
  }
}
