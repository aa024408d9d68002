/** The firmware store: listing, sorting, and the decision to offer an update. */
module Firmware {
  import opened Wrappers
  import opened Versions
  import opened VersionNames
  import Lex

  /** A *.bin file, named without its extension. */
  datatype File = File(stem: string, content: seq<bv8>)

  datatype Image = Image(version: string, file: File)

  /** The files with a recognizable version, in directory order. */
  function Recognized(files: seq<File>): seq<Image> {
    if files == [] then [] else
      var f := files[|files| - 1];
      var ver := ParseVersion(f.stem);
      Recognized(files[..|files| - 1]) + if ver.Some? && ver.value != "" then [Image(ver.value, f)] else []
  }

  /** Sort order of the listing: Python's order on the unpadded tuples. */
  predicate SortedBelow(a: Image, b: Image) {
    Lex.Less(VersionTuple(a.version), VersionTuple(b.version))
  }

  function InsertDescending(below: (Image, Image) -> bool, xs: seq<Image>, x: Image): seq<Image> {
    if xs == [] then [x]
    else if below(xs[|xs| - 1], x) then InsertDescending(below, xs[..|xs| - 1], x) + [xs[|xs| - 1]]
    else xs + [x]
  }

  /** images.sort(key=..., reverse=True): descending, equal versions keep their order. */
  function SortDescending(below: (Image, Image) -> bool, xs: seq<Image>): seq<Image> {
    if xs == [] then [] else InsertDescending(below, SortDescending(below, xs[..|xs| - 1]), xs[|xs| - 1])
  }

  function ListImages(files: seq<File>): seq<Image> {
    SortDescending(SortedBelow, Recognized(files))
  }

  method CollectImages(files: seq<File>) returns (images: seq<Image>)
    ensures images == ListImages(files)
  {
    images := [];
    for i := 0 to |files|
      invariant images == Recognized(files[..i])
    {
      assert files[..i + 1][..i] == files[..i];
      var ver := ParseVersion(files[i].stem);
      if ver.Some? && ver.value != "" {
        images := images + [Image(ver.value, files[i])];
      }
    }
    assert files[..|files|] == files;
    images := SortDescending(SortedBelow, images);
  }

  function Latest(files: seq<File>): Option<Image> {
    if ListImages(files) == [] then None else Some(ListImages(files)[0])
  }

  function NewerThan(files: seq<File>, current: string): Option<Image> {
    var latest := Latest(files);
    if latest.Some? && VersionGt(latest.value.version, if current == "" then "0" else current) then latest else None
  }

  // ---- The listing -----------------------------------------------------------

  lemma {:induction false} InsertMembers(below: (Image, Image) -> bool, xs: seq<Image>, x: Image)
    ensures multiset(InsertDescending(below, xs, x)) == multiset(xs) + multiset{x}
  {
    if xs != [] {
      var init, last := xs[..|xs| - 1], xs[|xs| - 1];
      assert xs == init + [last];
      InsertMembers(below, init, x);
    }
  }

  /** Sorting rearranges; it neither loses nor invents an image. */
  lemma {:induction false} SortPermutes(below: (Image, Image) -> bool, xs: seq<Image>)
    ensures multiset(SortDescending(below, xs)) == multiset(xs)
  {
    if xs != [] {
      var init, last := xs[..|xs| - 1], xs[|xs| - 1];
      assert xs == init + [last];
      SortPermutes(below, init);
      InsertMembers(below, SortDescending(below, init), last);
    }
  }

  predicate Descending(below: (Image, Image) -> bool, xs: seq<Image>) {
    forall i, j :: 0 <= i < j < |xs| ==> !below(xs[i], xs[j])
  }

  /** An order in which different images may be equals. */
  ghost predicate WeakOrder(below: (Image, Image) -> bool) {
    && (forall a, b :: below(a, b) ==> !below(b, a))
    && (forall a, b, c :: !below(a, b) && !below(b, c) ==> !below(a, c))
  }

  lemma VersionsWeakOrder()
    ensures WeakOrder(SortedBelow)
  {
    forall a, b | SortedBelow(a, b) ensures !SortedBelow(b, a) {
      Lex.Asymmetric(VersionTuple(a.version), VersionTuple(b.version));
    }
    forall a, b, c | !SortedBelow(a, b) && !SortedBelow(b, c) ensures !SortedBelow(a, c) {
      NotBelowTransitive(VersionTuple(a.version), VersionTuple(b.version), VersionTuple(c.version));
    }
  }

  lemma NotBelowTransitive(x: seq<int>, y: seq<int>, z: seq<int>)
    requires !Lex.Less(x, y) && !Lex.Less(y, z)
    ensures !Lex.Less(x, z)
  {
    Lex.Total(x, y);
    if Lex.Less(x, z) {
      if Lex.Less(y, x) { Lex.Transitive(y, x, z); }
    }
  }

  lemma AppendDescends(below: (Image, Image) -> bool, xs: seq<Image>, x: Image)
    requires Descending(below, xs) && forall i :: 0 <= i < |xs| ==> !below(xs[i], x)
    ensures Descending(below, xs + [x])
  {
  }

  lemma {:induction false} InsertDescends(below: (Image, Image) -> bool, xs: seq<Image>, x: Image)
    requires WeakOrder(below) && Descending(below, xs)
    ensures Descending(below, InsertDescending(below, xs, x))
  {
    if xs != [] {
      var init, last := xs[..|xs| - 1], xs[|xs| - 1];
      if below(last, x) {
        InsertDescends(below, init, x);
        InsertMembers(below, init, x);
        var r := InsertDescending(below, init, x);
        forall i | 0 <= i < |r| ensures !below(r[i], last) {
          assert r[i] in multiset(r);
          assert r[i] in multiset(init) + multiset{x};
        }
        AppendDescends(below, r, last);
      } else {
        assert forall i :: 0 <= i < |xs| - 1 ==> !below(xs[i], last);
        AppendDescends(below, xs, x);
      }
    }
  }

  /** After sorting no image is below a later one. */
  lemma {:induction false} SortDescends(below: (Image, Image) -> bool, xs: seq<Image>)
    requires WeakOrder(below)
    ensures Descending(below, SortDescending(below, xs))
  {
    if xs != [] {
      SortDescends(below, xs[..|xs| - 1]);
      InsertDescends(below, SortDescending(below, xs[..|xs| - 1]), xs[|xs| - 1]);
    }
  }

  lemma {:induction false} RecognizedNatural(files: seq<File>)
    ensures forall im :: im in Recognized(files) ==> im.version != "" && Natural(VersionTuple(im.version))
  {
    if files != [] {
      RecognizedNatural(files[..|files| - 1]);
      if ParseVersion(files[|files| - 1].stem).Some? {
        ParsedNatural(files[|files| - 1].stem);
      }
    }
  }

  lemma NewestListed(files: seq<File>)
    ensures Latest(files).None? <==> Recognized(files) == []
    ensures Latest(files).Some? ==>
      && Latest(files).value in Recognized(files)
      && forall im :: im in Recognized(files) ==> !VersionGt(im.version, Latest(files).value.version)
  {
    var xs, all := ListImages(files), Recognized(files);
    SortPermutes(SortedBelow, all);
    VersionsWeakOrder();
    SortDescends(SortedBelow, all);
    RecognizedNatural(files);
    assert |xs| == |multiset(xs)| == |multiset(all)| == |all|;
    if xs != [] {
      assert xs[0] in multiset(xs);
      forall im | im in all ensures !VersionGt(im.version, xs[0].version) {
        assert im in multiset(xs);
        var i :| 0 <= i < |xs| && xs[i] == im;
        if VersionGt(im.version, xs[0].version) {
          PaddedIsPlain(VersionTuple(xs[0].version), VersionTuple(im.version));
          if i == 0 { Lex.Irreflexive(VersionTuple(im.version)); }
        }
      }
    }
  }

  // ---- What is listed, over files --------------------------------------------

  lemma {:induction false} RecognizedCount(files: seq<File>, im: Image)
    ensures multiset(Recognized(files))[im]
         == if ParseVersion(im.file.stem) == Some(im.version) then multiset(files)[im.file] else 0
  {
    if files != [] {
      var init, f := files[..|files| - 1], files[|files| - 1];
      assert files == init + [f];
      RecognizedCount(init, im);
      if ParseVersion(f.stem).Some? {
        ParsedNatural(f.stem);
      }
    }
  }

  /** Listed are exactly the files with a recognizable version, each as often as it is in
      the store, and each under the version in its own name. */
  lemma ListedExact(files: seq<File>, im: Image)
    ensures im in ListImages(files) <==> im.file in files && ParseVersion(im.file.stem) == Some(im.version)
    ensures multiset(ListImages(files))[im]
         == if ParseVersion(im.file.stem) == Some(im.version) then multiset(files)[im.file] else 0
  {
    SortPermutes(SortedBelow, Recognized(files));
    RecognizedCount(files, im);
    assert im in ListImages(files) <==> multiset(ListImages(files))[im] > 0;
    assert im.file in files <==> multiset(files)[im.file] > 0;
  }

  lemma RecognizedExact(files: seq<File>)
    ensures forall im :: im in Recognized(files) <==> im.file in files && ParseVersion(im.file.stem) == Some(im.version)
  {
    forall im ensures im in Recognized(files) <==> im.file in files && ParseVersion(im.file.stem) == Some(im.version) {
      RecognizedCount(files, im);
      assert im in Recognized(files) <==> multiset(Recognized(files))[im] > 0;
      assert im.file in files <==> multiset(files)[im.file] > 0;
    }
  }

  /** The images to keep, in order. */
  function Filter(keep: Image -> bool, xs: seq<Image>): seq<Image> {
    if xs == [] then [] else
      Filter(keep, xs[..|xs| - 1]) + if keep(xs[|xs| - 1]) then [xs[|xs| - 1]] else []
  }

  lemma FilterAppend(keep: Image -> bool, xs: seq<Image>, x: Image)
    ensures Filter(keep, xs + [x]) == Filter(keep, xs) + if keep(x) then [x] else []
  {
    assert (xs + [x])[..|xs|] == xs;
  }

  lemma {:induction false} InsertStable(below: (Image, Image) -> bool, keep: Image -> bool, xs: seq<Image>, x: Image)
    requires forall y :: below(y, x) && keep(y) ==> !keep(x)
    ensures Filter(keep, InsertDescending(below, xs, x)) == Filter(keep, xs + [x])
  {
    if xs != [] && below(xs[|xs| - 1], x) {
      var init, last := xs[..|xs| - 1], xs[|xs| - 1];
      InsertStable(below, keep, init, x);
      assert xs == init + [last];
      FilterAppend(keep, xs, x);
      FilterAppend(keep, init, last);
      FilterAppend(keep, init, x);
      FilterAppend(keep, InsertDescending(below, init, x), last);
    }
  }

  lemma {:induction false} SortKeeps(below: (Image, Image) -> bool, keep: Image -> bool, xs: seq<Image>)
    requires forall x, y :: below(y, x) && keep(y) ==> !keep(x)
    ensures Filter(keep, SortDescending(below, xs)) == Filter(keep, xs)
  {
    if xs != [] {
      var init, last := xs[..|xs| - 1], xs[|xs| - 1];
      SortKeeps(below, keep, init);
      InsertStable(below, keep, SortDescending(below, init), last);
      FilterAppend(keep, SortDescending(below, init), last);
      FilterAppend(keep, init, last);
      assert xs == init + [last];
    }
  }

  function OfTuple(t: seq<int>): Image -> bool {
    (im: Image) => VersionTuple(im.version) == t
  }

  /** Images of equal versions are listed in directory order. */
  lemma ListStable(files: seq<File>, t: seq<int>)
    ensures Filter(OfTuple(t), ListImages(files)) == Filter(OfTuple(t), Recognized(files))
  {
    Lex.Irreflexive(t);
    forall x, y | SortedBelow(y, x) && OfTuple(t)(y) ensures !OfTuple(t)(x) {
    }
    SortKeeps(SortedBelow, OfTuple(t), Recognized(files));
  }

  /** The file's name has this version. */
  predicate HasVersion(f: File, v: string) {
    ParseVersion(f.stem) == Some(v)
  }

  /** The first image of the listing is a file of the store with the version in its own
      name, and no file's version is newer, although the listing is sorted by
      another order than versions are compared by. */
  lemma LatestIsNewest(files: seq<File>)
    ensures Latest(files).Some? <==> exists f :: f in files && ParseVersion(f.stem).Some?
    ensures Latest(files).Some? ==>
      && Latest(files).value.file in files && HasVersion(Latest(files).value.file, Latest(files).value.version)
      && forall f, v :: f in files && HasVersion(f, v) ==> !VersionGt(v, Latest(files).value.version)
  {
    NewestListed(files);
    RecognizedExact(files);
    if f :| f in files && ParseVersion(f.stem).Some? {
      assert Image(ParseVersion(f.stem).value, f) in Recognized(files);
    }
    if Recognized(files) != [] {
      var im := Recognized(files)[0];
      assert im in Recognized(files);
      assert im.file in files && ParseVersion(im.file.stem).Some?;
    }
    forall f, v | f in files && HasVersion(f, v) && Latest(files).Some?
      ensures !VersionGt(v, Latest(files).value.version)
    {
      assert Image(v, f) in Recognized(files);
    }
  }

  // ---- The offer -------------------------------------------------------------

  function Current(current: string): string {
    if current == "" then "0" else current
  }

  lemma OfferListed(files: seq<File>, current: string)
    ensures NewerThan(files, current).Some? <==>
      exists im :: im in Recognized(files) && VersionGt(im.version, Current(current))
    ensures NewerThan(files, current).Some? ==>
      var offer := NewerThan(files, current).value;
      && offer in Recognized(files) && VersionGt(offer.version, Current(current))
      && forall im :: im in Recognized(files) ==> !VersionGt(im.version, offer.version)
  {
    NewestListed(files);
    forall im | im in Recognized(files) && VersionGt(im.version, Current(current))
      ensures VersionGt(Latest(files).value.version, Current(current))
    {
      PaddedSplits(VersionTuple(Current(current)), VersionTuple(Latest(files).value.version), VersionTuple(im.version));
    }
  }

  /** A device that has applied the offer is offered nothing by the same store. */
  lemma NotOfferedTwice(files: seq<File>, current: string)
    requires NewerThan(files, current).Some?
    ensures NewerThan(files, NewerThan(files, current).value.version).None?
  {
    NewestListed(files);
    RecognizedNatural(files);
    PaddedIrreflexive(VersionTuple(Latest(files).value.version));
  }

  function Apply(ran: seq<string>, offer: Option<Image>): seq<string> {
    if offer.Some? then ran + [offer.value.version] else ran
  }

  /** The versions a device runs while the store changes and it applies every offer. */
  function Applied(check: (seq<File>, string) -> Option<Image>, stores: seq<seq<File>>, first: string): (vs: seq<string>)
    ensures vs != []
  {
    if stores == [] then [first] else
      var before := Applied(check, stores[..|stores| - 1], first);
      Apply(before, check(stores[|stores| - 1], before[|before| - 1]))
  }

  /** The answer to ota_check: an image to offer, or ota_none. */
  function OnOtaCheck(files: seq<File>, held: bool, current: string): Option<Image> {
    if held then None else NewerThan(files, current)
  }

  /** A device is offered a file if and only if it is not held and some file's version is
      newer than its own; then the offer is a file of the store under the version
      in its own name, newer than the device, and no file's version is newer. */
  lemma OfferOptimal(files: seq<File>, held: bool, current: string)
    ensures OnOtaCheck(files, held, current).Some? <==>
      !held && exists f, v :: f in files && HasVersion(f, v) && VersionGt(v, if current == "" then "0" else current)
    ensures OnOtaCheck(files, held, current).Some? ==>
      var offer := OnOtaCheck(files, held, current).value;
      && offer.file in files && HasVersion(offer.file, offer.version)
      && VersionGt(offer.version, if current == "" then "0" else current)
      && forall f, v :: f in files && HasVersion(f, v) ==> !VersionGt(v, offer.version)
  {
    OfferListed(files, current);
    LatestIsNewest(files);
    RecognizedExact(files);
    if f, v :| f in files && HasVersion(f, v) && VersionGt(v, Current(current)) {
      assert Image(v, f) in Recognized(files);
    }
    if im :| im in Recognized(files) && VersionGt(im.version, Current(current)) {
      assert im.file in files && HasVersion(im.file, im.version);
    }
  }

  /** Each version is newer than every one before it. */
  predicate Rising(newer: (string, string) -> bool, ran: seq<string>) {
    |ran| <= 1 || (Rising(newer, ran[..|ran| - 1]) && forall i :: 0 <= i < |ran| - 1 ==> newer(ran[|ran| - 1], ran[i]))
  }

  ghost predicate Transitive(newer: (string, string) -> bool) {
    forall a, b, c :: newer(b, a) && newer(c, b) ==> newer(c, a)
  }

  /** Newer than the last is newer than all. */
  lemma ApplyRises(newer: (string, string) -> bool, ran: seq<string>, offer: Option<Image>)
    requires ran != [] && Rising(newer, ran) && Transitive(newer)
    requires offer.Some? ==> newer(offer.value.version, ran[|ran| - 1])
    ensures Rising(newer, Apply(ran, offer))
  {
    if offer.Some? {
      var after := ran + [offer.value.version];
      assert after[..|ran|] == ran;
      assert forall i :: 0 <= i < |ran| - 1 ==> newer(ran[|ran| - 1], ran[i]);
      assert forall i :: 0 <= i < |ran| ==> after[i] == ran[i];
    }
  }

  lemma {:induction false} OffersRise(newer: (string, string) -> bool, check: (seq<File>, string) -> Option<Image>, stores: seq<seq<File>>, first: string)
    requires Transitive(newer)
    requires forall files, current :: check(files, current).Some? ==> newer(check(files, current).value.version, current)
    ensures Rising(newer, Applied(check, stores, first))
  {
    if stores != [] {
      var before := Applied(check, stores[..|stores| - 1], first);
      OffersRise(newer, check, stores[..|stores| - 1], first);
      ApplyRises(newer, before, check(stores[|stores| - 1], before[|before| - 1]));
    }
  }

  /** The comparison the offer rests on. */
  predicate Newer(v: string, than: string) {
    v != "" && VersionGt(v, Current(than))
  }

  lemma NewerTransitive(a: string, b: string, c: string)
    requires Newer(b, a) && Newer(c, b)
    ensures Newer(c, a)
  {
    PaddedTransitive(VersionTuple(Current(a)), VersionTuple(b), VersionTuple(c));
  }

  lemma OfferIsNewer(files: seq<File>, held: bool, current: string)
    requires OnOtaCheck(files, held, current).Some?
    ensures Newer(OnOtaCheck(files, held, current).value.version, current)
  {
    OfferListed(files, current);
    RecognizedNatural(files);
  }

  function Checker(held: bool): (seq<File>, string) -> Option<Image> {
    (files: seq<File>, current: string) => OnOtaCheck(files, held, current)
  }

  /** Through any sequence of stores, every version a device applies is newer
      than all the versions it ran before. */
  lemma AppliedIncreases(stores: seq<seq<File>>, held: bool, first: string)
    ensures Rising(Newer, Applied(Checker(held), stores, first))
  {
    forall a, b, c | Newer(b, a) && Newer(c, b) ensures Newer(c, a) {
      NewerTransitive(a, b, c);
    }
    forall files, current | OnOtaCheck(files, held, current).Some?
      ensures Newer(OnOtaCheck(files, held, current).value.version, current)
    {
      OfferIsNewer(files, held, current);
    }
    OffersRise(Newer, Checker(held), stores, first);
  }
}
