/**
 * The client manifest builder: for every visible folder under the client
 * root, the sorted names of the image files directly inside it, kept in an
 * insertion-ordered dictionary that is then written out as JSON.
 */
module BuildClientManifests {
  import opened Wrappers
  import opened Ordering
  import opened Paths
  import opened Filesystem

  const ClientImageExtensions: set<string> := {".jpg", ".jpeg", ".png", ".gif", ".webp"}

  /** `f.suffix.lower() in IMAGE_EXTENSIONS`. */
  predicate IsClientImage(name: string)
  {
    HasSuffixIn(name, ClientImageExtensions)
  }

  /**
   * The manifest's image test holds exactly when the name ends, ignoring
   * case, with `.jpg`, `.jpeg`, `.png`, `.gif` or `.webp` after a non-empty stem.
   */
  lemma ClientImageIff(name: string)
    ensures IsClientImage(name) <==>
      exists e :: e in ClientImageExtensions && |e| < |name| && Lower(name[|name| - |e|..]) == e
  {
    HasSuffixInIff(name, ClientImageExtensions);
  }

  /** `name.startswith(".")`. */
  predicate IsHidden(name: string)
  {
    |name| > 0 && name[0] == '.'
  }

  /** Case is ignored, and GIF counts as an image here. */
  lemma ClientImageAccepts()
    ensures IsClientImage("a.JPG") && IsClientImage("b.gif") && IsClientImage("b.png")
  {
    SuffixAt("a.JPG", 1);
    assert Lower("a.JPG"[1..]) == ".jpg";
    SuffixAt("b.gif", 1);
    assert Lower("b.gif"[1..]) == ".gif";
    SuffixAt("b.png", 1);
    assert Lower("b.png"[1..]) == ".png";
  }

  /** `.jpe` does not count here, and a bare `.jpg` has no suffix at all. */
  lemma ClientImageRejects()
    ensures !IsClientImage("c.jpe") && !IsClientImage("note.txt") && !IsClientImage(".jpg")
  {
    SuffixAt("c.jpe", 1);
    assert Lower("c.jpe"[1..]) == ".jpe";
    SuffixAt("note.txt", 4);
    assert Lower("note.txt"[4..]) == ".txt";
    assert ".jpg"[1] != '.' && ".jpg"[2] != '.' && ".jpg"[3] != '.';
  }

  /**
   * A Python dict from folder name to file names: `keys` in insertion order
   * (the order `json.dump` writes them), `values` the mapping itself.
   */
  datatype Manifest = Manifest(keys: seq<string>, values: map<string, seq<string>>)
  {
    /** Every key is listed exactly once. */
    ghost predicate Valid()
    {
      && (forall i, j :: 0 <= i < j < |keys| ==> keys[i] != keys[j])
      && (forall k :: k in values <==> k in keys)
    }

    /** `d[k] = v`: a new key goes last, an existing key keeps its place. */
    function Put(k: string, v: seq<string>): (r: Manifest)
      ensures Valid() ==> r.Valid()
      ensures r.values == values[k := v]
      ensures k in values ==> r.keys == keys
      ensures k !in values ==> r.keys == keys + [k]
    {
      Manifest(if k in values then keys else keys + [k], values[k := v])
    }
  }

  const EmptyManifest: Manifest := Manifest([], map[])

  /** A subdirectory that gets a key: a directory whose name does not start with a dot. */
  predicate IsClientFolder(entries: map<string, Node>, name: string)
  {
    name in entries && entries[name].Dir? && !IsHidden(name)
  }

  function FolderFilter(entries: map<string, Node>): string -> bool
  {
    name => IsClientFolder(entries, name)
  }

  /** `f.is_file() and f.suffix.lower() in IMAGE_EXTENSIONS` for the entry `name` of `folder`. */
  predicate IsImageEntry(folder: map<string, Node>, name: string)
  {
    name in folder && folder[name].File? && IsClientImage(name)
  }

  function ImageFilter(folder: map<string, Node>): string -> bool
  {
    name => IsImageEntry(folder, name)
  }

  /** `sorted(subdir.iterdir())` as names: every entry of the folder, in order. */
  function Listing(folder: map<string, Node>): (r: seq<string>)
    ensures forall n :: n in r <==> n in folder
    ensures StrictlySorted(r, StrLess)
  {
    StrLessIsStrictTotal();
    SortSet(folder.Keys, StrLess)
  }

  /**
   * The image files among `names`, in their order: what the inner loop appends.
   * It equals `Filter(names, ImageFilter(folder))` (`ImagesAmongIsFilter`); it is
   * spelled out here so the loop invariant avoids `Filter`'s quantified ensures.
   */
  function ImagesAmong(folder: map<string, Node>, names: seq<string>): seq<string>
  {
    if names == [] then []
    else
      var last := names[|names| - 1];
      ImagesAmong(folder, names[..|names| - 1]) + (if IsImageEntry(folder, last) then [last] else [])
  }

  lemma ImagesAmongStep(folder: map<string, Node>, names: seq<string>, j: nat)
    requires j < |names|
    ensures ImagesAmong(folder, names[..j + 1]) ==
      ImagesAmong(folder, names[..j]) + (if IsImageEntry(folder, names[j]) then [names[j]] else [])
  {
    assert names[..j + 1][..j] == names[..j];
  }

  /** The inner loop keeps exactly the names that pass the image test. */
  lemma {:induction false} ImagesAmongIsFilter(folder: map<string, Node>, names: seq<string>)
    ensures ImagesAmong(folder, names) == Filter(names, ImageFilter(folder))
  {
    if names != [] {
      ImagesAmongIsFilter(folder, names[..|names| - 1]);
    }
  }

  /** The list built for one folder: the image files of its listing, in listing order. */
  function ImagesOf(folder: map<string, Node>): seq<string>
  {
    ImagesAmong(folder, Listing(folder))
  }

  /** `files` lists exactly the image files of `folder`, sorted, each once. */
  ghost predicate ListsImages(folder: map<string, Node>, files: seq<string>)
  {
    && (forall f :: f in files <==> f in folder && folder[f].File? && IsClientImage(f))
    && StrictlySorted(files, StrLess)
  }

  /**
   * What the manifest is meant to hold, independently of how it is built:
   * one key per client folder, keys in sorted order, and under each key the
   * sorted image files of that folder.
   */
  ghost predicate ManifestSpec(entries: map<string, Node>, m: Manifest)
  {
    && m.Valid()
    && (forall n :: n in m.values <==> IsClientFolder(entries, n))
    && StrictlySorted(m.keys, StrLess)
    && (forall n :: IsClientFolder(entries, n) && n in m.values ==> ListsImages(entries[n].entries, m.values[n]))
  }

  /**
   * The image list of a folder holds its image files and nothing else (so
   * no subdirectory, whatever its name), sorted and without duplicates, and
   * is a subsequence of the folder's sorted listing.
   */
  lemma ImagesOfListsImages(folder: map<string, Node>)
    ensures ListsImages(folder, ImagesOf(folder))
    ensures IsSubsequence(ImagesOf(folder), Listing(folder))
  {
    ImagesAmongIsFilter(folder, Listing(folder));
    FilterKeepsSorted(Listing(folder), ImageFilter(folder), StrLess);
    FilterIsSubsequence(Listing(folder), ImageFilter(folder));
  }

  /** The manifest after the outer loop has seen `names`, in order. */
  function ManifestFor(entries: map<string, Node>, names: seq<string>): Manifest
  {
    if names == [] then EmptyManifest
    else
      var name := names[|names| - 1];
      var m := ManifestFor(entries, names[..|names| - 1]);
      if IsClientFolder(entries, name) then m.Put(name, ImagesOf(entries[name].entries)) else m
  }

  lemma ManifestForStep(entries: map<string, Node>, names: seq<string>, i: nat)
    requires i < |names|
    ensures ManifestFor(entries, names[..i + 1]) ==
      if IsClientFolder(entries, names[i]) then ManifestFor(entries, names[..i]).Put(names[i], ImagesOf(entries[names[i]].entries))
      else ManifestFor(entries, names[..i])
  {
    assert names[..i + 1][..i] == names[..i];
  }

  /** `main` on an existing root: the manifest after the outer loop has seen every entry. */
  function ManifestOf(entries: map<string, Node>): Manifest
  {
    ManifestFor(entries, Listing(entries))
  }

  /**
   * Over a sorted run of distinct names, the outer loop keeps exactly the
   * client folders, in their order, each with its image list.
   */
  lemma {:induction false} ManifestForShape(entries: map<string, Node>, names: seq<string>)
    requires StrictlySorted(names, StrLess)
    ensures ManifestFor(entries, names).keys == Filter(names, FolderFilter(entries))
    ensures ManifestFor(entries, names).Valid()
    ensures forall n :: n in ManifestFor(entries, names).values <==> n in names && IsClientFolder(entries, n)
    ensures forall n :: n in ManifestFor(entries, names).values ==>
      ManifestFor(entries, names).values[n] == ImagesOf(entries[n].entries)
  {
    if names != [] {
      var init, name := names[..|names| - 1], names[|names| - 1];
      ManifestForShape(entries, init);
      if name in init {
        var k :| 0 <= k < |init| && init[k] == name;
        assert StrLess(names[k], names[|names| - 1]);
        StrLessIsStrictTotal();
        assert false;
      }
      assert name !in ManifestFor(entries, init).values;
    }
  }

  /** The manifest `main` builds meets the description above. */
  lemma ManifestOfMeetsSpec(entries: map<string, Node>)
    ensures ManifestSpec(entries, ManifestOf(entries))
  {
    var names := Listing(entries);
    ManifestForShape(entries, names);
    FilterKeepsSorted(names, FolderFilter(entries), StrLess);
    var m := ManifestOf(entries);
    forall n | IsClientFolder(entries, n) && n in m.values
      ensures ListsImages(entries[n].entries, m.values[n])
    {
      ImagesOfListsImages(entries[n].entries);
    }
  }

  /**
   * The description pins the manifest down completely, order included: the
   * same listing always gives the same manifest, so a rerun rewrites the
   * same JSON.
   */
  lemma ManifestSpecUnique(entries: map<string, Node>, m1: Manifest, m2: Manifest)
    requires ManifestSpec(entries, m1) && ManifestSpec(entries, m2)
    ensures m1 == m2
  {
    StrLessIsStrictTotal();
    SortedUnique(m1.keys, m2.keys, StrLess);
    forall n | n in m1.values ensures m1.values[n] == m2.values[n] {
      SortedUnique(m1.values[n], m2.values[n], StrLess);
    }
  }

  /** How a run of `main` ends. */
  datatype BuildResult =
    | Wrote(manifest: Manifest, createdRoot: bool)   // the manifest written to client-manifests.json
    | Raised                                          // os.makedirs raised: the root exists but is not a directory

  /**
   * `main`. A missing root is created and an empty manifest written; an
   * existing root is listed in sorted order, each visible folder in turn,
   * each folder's files in sorted order.
   */
  method BuildManifests(root: Option<Node>) returns (r: BuildResult)
    ensures root.None? ==> r == Wrote(EmptyManifest, true)
    ensures root.Some? && !root.value.Dir? ==> r == Raised
    ensures root.Some? && root.value.Dir? ==> r == Wrote(ManifestOf(root.value.entries), false)
  {
    if !(root.Some? && root.value.Dir?) {
      if root.Some? {
        return Raised;
      }
      return Wrote(EmptyManifest, true);
    }
    var entries := root.value.entries;
    var subdirs := Listing(entries);
    var manifests := EmptyManifest;
    for i := 0 to |subdirs|
      invariant manifests == ManifestFor(entries, subdirs[..i])
    {
      ManifestForStep(entries, subdirs, i);
      var name := subdirs[i];
      if !entries[name].Dir? {
        continue;
      }
      if IsHidden(name) {
        continue;
      }
      var folder := entries[name].entries;
      var files := CollectImages(folder);
      manifests := manifests.Put(name, files);
    }
    assert subdirs[..|subdirs|] == subdirs;
    return Wrote(manifests, false);
  }

  /** The inner loop of `main`: the folder's entries in sorted order, keeping the image files. */
  method CollectImages(folder: map<string, Node>) returns (files: seq<string>)
    ensures files == ImagesOf(folder)
  {
    var listing := Listing(folder);
    files := [];
    for j := 0 to |listing|
      invariant files == ImagesAmong(folder, listing[..j])
    {
      ImagesAmongStep(folder, listing, j);
      var f := listing[j];
      if IsImageEntry(folder, f) {
        files := files + [f];
      }
    }
    assert listing[..|listing|] == listing;
  }

  /** After a run that created the root, a second run writes the same empty manifest. */
  lemma RerunAfterCreate()
    ensures ManifestOf(map[]) == EmptyManifest
  {
    assert Listing(map[]) == [];
  }

  /** A folder `acme` holding two images and a text file, next to a hidden folder and a plain file. */
  const AcmeFolder: map<string, Node> := map["a.JPG" := File, "b.png" := File, "note.txt" := File]
  const AcmeRoot: map<string, Node> := map["acme" := Dir(AcmeFolder), ".git" := Dir(map[]), "readme.md" := File]

  lemma AcmeFolderMembers()
    ensures forall f :: f in ["a.JPG", "b.png"] <==> f in AcmeFolder && AcmeFolder[f].File? && IsClientImage(f)
  {
    ClientImageAccepts();
    ClientImageRejects();
    forall f ensures f in ["a.JPG", "b.png"] <==> f in AcmeFolder && AcmeFolder[f].File? && IsClientImage(f) {
      if f !in AcmeFolder {
        assert f != "a.JPG" && f != "b.png";
      } else if f == "note.txt" {
        assert f != "a.JPG" && f != "b.png";
      }
    }
  }

  lemma AcmeFolderImages()
    ensures ListsImages(AcmeFolder, ["a.JPG", "b.png"])
  {
    AcmeFolderMembers();
    assert "a.JPG"[0] == 'a' && "b.png"[0] == 'b';
  }

  lemma AcmeRootSpec()
    ensures ManifestSpec(AcmeRoot, Manifest(["acme"], map["acme" := ["a.JPG", "b.png"]]))
  {
    AcmeFolderImages();
    assert ".git"[0] == '.';
    assert forall n :: IsClientFolder(AcmeRoot, n) <==> n == "acme";
  }

  /** The example root gives one key, whose list holds the two bare image names in order. */
  lemma AcmeExample()
    ensures ManifestOf(AcmeRoot) == Manifest(["acme"], map["acme" := ["a.JPG", "b.png"]])
  {
    AcmeRootSpec();
    ManifestOfMeetsSpec(AcmeRoot);
    ManifestSpecUnique(AcmeRoot, ManifestOf(AcmeRoot), Manifest(["acme"], map["acme" := ["a.JPG", "b.png"]]));
  }
}
