/** The dataset side of the evaluation: turning directory entries into labelled
    images (`load_images`) and splitting them into the enrolled gallery and the
    probe queries (the loop in `main`). The directory listing itself is an
    input: `names` is what `readdir` returned, in enumeration order. */
module Dataset {
  import opened Text

  /** One image of the dataset: its path and the identity it shows. */
  datatype Image = Image(path: string, identity: string)

  /** Gallery and probe images, each in dataset order. */
  datatype Partition = Partition(gallery: seq<Image>, probes: seq<Image>)

  /** The marker whose presence in a path enrols the image in the gallery. */
  const GalleryMarker: string := ".normal"

  /** The identity of a file: its name up to (not including) the first `.`,
      or the whole name when it has no `.`. */
  function LabelOf(filename: string): (r: string)
    ensures |r| <= |filename| && r == filename[..|r|]
    ensures '.' !in r
    ensures r == filename || filename[|r|] == '.'
  {
    match Find(filename, ".")
    case None =>
      NoOccurrenceNoChar(filename, '.', |filename|);
      filename
    case Some(i) =>
      NoOccurrenceNoChar(filename, '.', i);
      assert filename[i..i + 1] == [filename[i]];
      filename[..i]
  }

  /** A character that does not occur as a one-character substring before
      index `k` is not among the first `k` characters. */
  lemma NoOccurrenceNoChar(s: string, c: char, k: nat)
    requires k <= |s|
    requires forall i :: 0 <= i < k ==> !OccursAt(s, [c], i)
    ensures c !in s[..k]
  {
    forall i | 0 <= i < k
      ensures s[i] != c
    {
      assert !OccursAt(s, [c], i);
      assert s[i..i + 1] == [s[i]];
    }
  }

  /** The label is determined by the three facts `LabelOf` promises: any prefix
      without a `.` that is either the whole name or stops at a `.` is it. */
  lemma LabelOfUnique(filename: string, prefix: string)
    requires |prefix| <= |filename| && prefix == filename[..|prefix|]
    requires '.' !in prefix
    requires prefix == filename || filename[|prefix|] == '.'
    ensures prefix == LabelOf(filename)
  {
  }

  /** `readdir` reports these two entries for every directory; they are skipped. */
  predicate IsDotEntry(name: string) {
    name == "." || name == ".."
  }

  /** The image a directory entry yields. */
  function ImageOf(directory: string, filename: string): (r: Image)
    ensures |r.path| == |directory| + 1 + |filename|
    ensures r.path[..|directory|] == directory && r.path[|directory|] == '/'
    ensures r.path[|directory| + 1..] == filename
    ensures |r.identity| <= |filename| && r.identity == filename[..|r.identity|]
    ensures '.' !in r.identity
    ensures r.identity == filename || filename[|r.identity|] == '.'
  {
    Image(directory + "/" + filename, LabelOf(filename))
  }

  /** Number of `.`/`..` entries among `names`. */
  function DotEntries(names: seq<string>): (r: nat)
    ensures r <= |names|
    ensures r == 0 <==> forall i :: 0 <= i < |names| ==> !IsDotEntry(names[i])
  {
    if |names| == 0 then 0
    else (if IsDotEntry(names[0]) then 1 else 0) + DotEntries(names[1..])
  }

  /** `load_images` on a directory whose entries are `names`, in order. */
  function LoadImages(directory: string, names: seq<string>): (r: seq<Image>)
    ensures |r| == |names| - DotEntries(names)
    ensures DotEntries(names) == 0 ==>
              forall i :: 0 <= i < |names| ==> r[i] == ImageOf(directory, names[i])
  {
    if |names| == 0 then []
    else
      EntryImages(directory, names[0]) + LoadImages(directory, names[1..])
  }

  /** What one directory entry contributes: nothing for `.` and `..`, else its image. */
  function EntryImages(directory: string, name: string): (r: seq<Image>)
    ensures r == [] <==> IsDotEntry(name)
    ensures !IsDotEntry(name) ==> r == [ImageOf(directory, name)]
  {
    if IsDotEntry(name) then [] else [ImageOf(directory, name)]
  }

  /** Every loaded image comes from a real (non-dot) entry of the listing. */
  lemma {:induction false} LoadImagesSound(directory: string, names: seq<string>)
    ensures forall img :: img in LoadImages(directory, names) ==>
              exists n :: n in names && !IsDotEntry(n) && img == ImageOf(directory, n)
    decreases |names|
  {
    if |names| > 0 {
      LoadImagesSound(directory, names[1..]);
      assert forall n :: n in names[1..] ==> n in names;
    }
  }

  /** Loading a concatenated listing is loading each part in turn: entries map
      to images one by one and in enumeration order. */
  lemma {:induction false} LoadImagesAppend(directory: string, a: seq<string>, b: seq<string>)
    ensures LoadImages(directory, a + b) == LoadImages(directory, a) + LoadImages(directory, b)
    decreases |a|
  {
    if |a| == 0 {
      assert a + b == b;
    } else {
      var ab := a + b;
      assert ab[0] == a[0] && ab[1..] == a[1..] + b;
      LoadImagesAppend(directory, a[1..], b);
      var head := EntryImages(directory, a[0]);
      calc {
        LoadImages(directory, ab);
        head + LoadImages(directory, a[1..] + b);
        head + (LoadImages(directory, a[1..]) + LoadImages(directory, b));
        (head + LoadImages(directory, a[1..])) + LoadImages(directory, b);
      }
    }
  }

  /** A single entry yields nothing when it is `.` or `..`, else exactly its image. */
  lemma LoadImagesSingle(directory: string, name: string)
    ensures LoadImages(directory, [name]) == EntryImages(directory, name)
  {
    assert [name][1..] == [];
  }

  /** The split rule: the path contains ".normal". */
  predicate IsGallery(img: Image)
    ensures IsGallery(img) <==> exists i :: OccursAt(img.path, GalleryMarker, i)
  {
    ContainsIffOccurs(img.path, GalleryMarker);
    Contains(img.path, GalleryMarker)
  }

  /** `all` is an interleaving of `g` and `p`: both keep the order of `all`,
      and every element of `all` goes to exactly one of them. */
  predicate IsMerge(all: seq<Image>, g: seq<Image>, p: seq<Image>)
    decreases |all|
  {
    if |all| == 0 then g == [] && p == []
    else
      || (|g| > 0 && g[0] == all[0] && IsMerge(all[1..], g[1..], p))
      || (|p| > 0 && p[0] == all[0] && IsMerge(all[1..], g, p[1..]))
  }

  /** The gallery/probe split in `main`. */
  function Split(images: seq<Image>): (r: Partition)
    ensures IsMerge(images, r.gallery, r.probes)
    ensures forall g :: g in r.gallery ==> IsGallery(g)
    ensures forall p :: p in r.probes ==> !IsGallery(p)
    ensures multiset(r.gallery) + multiset(r.probes) == multiset(images)
  {
    if |images| == 0 then Partition([], [])
    else
      var rest := Split(images[1..]);
      assert images == [images[0]] + images[1..];
      if IsGallery(images[0]) then
        var r := Partition([images[0]] + rest.gallery, rest.probes);
        assert r.gallery[1..] == rest.gallery;
        r
      else
        var r := Partition(rest.gallery, [images[0]] + rest.probes);
        assert r.probes[1..] == rest.probes;
        r
  }

  /** An interleaving loses and invents nothing. */
  lemma {:induction false} MergeLength(all: seq<Image>, g: seq<Image>, p: seq<Image>)
    requires IsMerge(all, g, p)
    ensures |g| + |p| == |all|
    decreases |all|
  {
    if |all| > 0 {
      if |g| > 0 && g[0] == all[0] && IsMerge(all[1..], g[1..], p) {
        MergeLength(all[1..], g[1..], p);
      } else {
        MergeLength(all[1..], g, p[1..]);
      }
    }
  }

  /** The split sends each image to the gallery exactly when its path carries
      the marker, and the two parts add up to the whole. */
  lemma SplitIsPartition(images: seq<Image>)
    ensures |Split(images).gallery| + |Split(images).probes| == |images|
    ensures forall x :: x in images ==> (x in Split(images).gallery <==> IsGallery(x))
    ensures forall x :: x in images ==> (x in Split(images).probes <==> !IsGallery(x))
  {
    var r := Split(images);
    MergeLength(images, r.gallery, r.probes);
    forall x | x in images
      ensures x in r.gallery <==> IsGallery(x)
      ensures x in r.probes <==> !IsGallery(x)
    {
      assert x in multiset(images);
      assert x in multiset(r.gallery) || x in multiset(r.probes);
    }
  }

  /** Conversely, an order-preserving interleaving whose gallery part carries
      the marker and whose probe part does not is the split. */
  lemma {:induction false} SplitUnique(all: seq<Image>, g: seq<Image>, p: seq<Image>)
    requires IsMerge(all, g, p)
    requires forall x :: x in g ==> IsGallery(x)
    requires forall x :: x in p ==> !IsGallery(x)
    ensures Split(all) == Partition(g, p)
    decreases |all|
  {
    if |all| > 0 {
      SplitCons(all);
      if |g| > 0 && g[0] == all[0] && IsMerge(all[1..], g[1..], p) {
        assert g[0] in g;
        assert forall x :: x in g[1..] ==> x in g;
        SplitUnique(all[1..], g[1..], p);
        assert g == [g[0]] + g[1..];
      } else {
        assert p[0] in p;
        assert forall x :: x in p[1..] ==> x in p;
        SplitUnique(all[1..], g, p[1..]);
        assert p == [p[0]] + p[1..];
      }
    }
  }

  /** One step of the split loop: the first image goes to the front of its side. */
  lemma SplitCons(all: seq<Image>)
    requires |all| > 0
    ensures Split(all) ==
              if IsGallery(all[0])
              then Partition([all[0]] + Split(all[1..]).gallery, Split(all[1..]).probes)
              else Partition(Split(all[1..]).gallery, [all[0]] + Split(all[1..]).probes)
  {
  }
}
