/** The table of loaded images, cached before any signal arrives, and its lookup by address. */
module ImageTables {
  import opened Prelude
  import opened DumpBuffers

  const MAX_IMAGES := 1024
  const MAX_NAME_LEN := 128

  type Int64 = v: int | -0x8000_0000_0000_0000 <= v < 0x8000_0000_0000_0000

  /** A whole fixed-size name field, terminator and padding included. */
  type NameBytes = s: string | |s| == 128 witness seq(128, _ => '\0')

  datatype ImageRecord = ImageRecord(loadAddr: Word, slide: Int64, name: NameBytes)

  /** One image as the dynamic loader reports it: a name (without terminator) or null, a header
      address or null, and the slide. */
  datatype LoaderImage = LoaderImage(name: Option<string>, header: Option<Word>, slide: Int64)

  function Zeros(n: nat): (s: string)
    ensures |s| == n && forall i :: 0 <= i < n ==> s[i] == '\0'
  {
    seq(n, _ => '\0')
  }

  /** A name field: at most 127 characters of the name, then NULs. */
  function NameField(name: string): (field: NameBytes)
    ensures field[MAX_NAME_LEN - 1] == '\0'
  {
    var k := Min(|UpToNul(name)|, MAX_NAME_LEN - 1);
    UpToNul(name)[..k] + Zeros(MAX_NAME_LEN - k)
  }

  function Record(image: LoaderImage): ImageRecord
    requires image.name.Some? && image.header.Some?
  {
    ImageRecord(image.header.value, image.slide, NameField(image.name.value))
  }

  /** The records of all images that have both a name and a header, in loader order. */
  function Records(loader: seq<LoaderImage>): seq<ImageRecord> {
    if loader == [] then []
    else
      var last := loader[|loader| - 1];
      Records(loader[..|loader| - 1]) +
        if last.name.Some? && last.header.Some? then [Record(last)] else []
  }

  function Loaded(loader: seq<LoaderImage>): seq<ImageRecord> {
    var all := Records(loader);
    all[..Min(|all|, MAX_IMAGES)]
  }

  /** No image before the i-th is as close below `addr` as the i-th. */
  predicate FirstBest(images: seq<ImageRecord>, addr: Word, i: int) {
    && 0 <= i < |images|
    && forall j :: 0 <= j < i ==> images[j].loadAddr > addr || images[j].loadAddr < images[i].loadAddr
  }

  /** The first image, in table order, among those whose load address is the largest
      that does not exceed `addr`. */
  function Containing(images: seq<ImageRecord>, addr: Word): (found: Option<ImageRecord>)
    ensures found.Some? ==> found.value in images && found.value.loadAddr <= addr
    ensures forall i :: 0 <= i < |images| && images[i].loadAddr <= addr ==>
      found.Some? && images[i].loadAddr <= found.value.loadAddr
  {
    if images == [] then None
    else
      var before := Containing(images[..|images| - 1], addr);
      var last := images[|images| - 1];
      if last.loadAddr <= addr && (before.None? || last.loadAddr > before.value.loadAddr)
      then
        Some(last)
      else before
  }

  lemma {:induction false} ContainingIsFirst(images: seq<ImageRecord>, addr: Word)
    requires Containing(images, addr).Some?
    ensures exists i :: FirstBest(images, addr, i) && images[i] == Containing(images, addr).value
    decreases |images|
  {
    var k := |images| - 1;
    var found := Containing(images, addr).value;
    var before := Containing(images[..k], addr);
    if before == Some(found) {
      ContainingIsFirst(images[..k], addr);
      var i :| FirstBest(images[..k], addr, i) && images[..k][i] == found;
      assert FirstBest(images, addr, i);
    } else {
      assert forall j :: 0 <= j < k ==> images[j] == images[..k][j];
      assert FirstBest(images, addr, k);
    }
  }

  /** A record has the image's header address and slide, and a name that prints as the first 127 characters. */
  lemma RecordOf(image: LoaderImage)
    requires image.name.Some? && image.header.Some?
    ensures var r := Record(image);
      && Some(r.loadAddr) == image.header && r.slide == image.slide
      && UpToNul(r.name) == UpToNul(image.name.value)[..Min(|UpToNul(image.name.value)|, 127)]
  {
    PrintedName(image.name.value);
  }

  /** Image by image: a record is added exactly if the image has a name and a header, behind all before it. */
  lemma RecordsStep(loader: seq<LoaderImage>, i: nat)
    requires i < |loader|
    ensures loader[i].name.None? || loader[i].header.None? ==> Records(loader[..i + 1]) == Records(loader[..i])
    ensures loader[i].name.Some? && loader[i].header.Some? ==>
      Records(loader[..i + 1]) == Records(loader[..i]) + [Record(loader[i])]
  {
    PrefixStep(loader, i);
  }

  /** The table holds at most 1024 records, the first ones. */
  lemma LoadedAre(loader: seq<LoaderImage>)
    ensures Loaded(loader) <= Records(loader)
    ensures |Loaded(loader)| == (if |Records(loader)| < 1024 then |Records(loader)| else 1024)
  {
  }

  class ImageTable {
    var images: seq<ImageRecord>

    constructor ()
      ensures images == []
    {
      images := [];
    }

    method LoadImages(loader: seq<LoaderImage>)
      modifies this
      ensures images == Loaded(loader)
    {
      images := [];
      var i := 0;
      assert Records(loader[..0]) == [];
      while i < |loader| && |images| < MAX_IMAGES
        invariant i <= |loader| && |images| <= MAX_IMAGES
        invariant images == Records(loader[..i])
      {
        var image := loader[i];
        assert loader[..i + 1][..i] == loader[..i];
        i := i + 1;
        if image.name.None? || image.header.None? {
          continue;
        }
        var field := CopyName(image.name.value);
        images := images + [ImageRecord(image.header.value, image.slide, field)];
      }
      RecordsPrefix(loader, i);
      assert loader[..|loader|] == loader;
    }

    method FindImage(addr: Word) returns (best: Option<ImageRecord>)
      ensures best == Containing(images, addr)
    {
      best := None;
      var i := 0;
      while i < |images|
        invariant i <= |images|
        invariant best == Containing(images[..i], addr)
      {
        var img := images[i];
        assert images[..i + 1][..i] == images[..i];
        if img.loadAddr <= addr && (best == None || img.loadAddr > best.value.loadAddr) {
          best := Some(img);
        }
        i := i + 1;
      }
      assert images[..i] == images;
    }
  }

  lemma {:induction false} RecordsPrefix(loader: seq<LoaderImage>, i: nat)
    requires i <= |loader|
    ensures Records(loader[..i]) <= Records(loader)
    decreases |loader|
  {
    if i < |loader| {
      var shorter := loader[..|loader| - 1];
      assert shorter[..i] == loader[..i];
      RecordsPrefix(shorter, i);
    } else {
      assert loader[..i] == loader;
    }
  }

  method CopyName(name: string) returns (field: NameBytes)
    ensures field == NameField(name)
  {
    var text := [];
    var nameIdx := 0;
    while nameIdx + 1 < MAX_NAME_LEN && nameIdx < |name| && name[nameIdx] != '\0'
      invariant nameIdx <= |name| && nameIdx < MAX_NAME_LEN
      invariant '\0' !in name[..nameIdx]
      invariant text == name[..nameIdx]
    {
      text := text + [name[nameIdx]];
      nameIdx := nameIdx + 1;
    }
    UpToNulSplit(name, nameIdx);
    field := text + Zeros(MAX_NAME_LEN - nameIdx);
  }

  /** What a name field prints: the name, cut to 127 characters. */
  lemma PrintedName(name: string)
    ensures UpToNul(NameField(name)) == UpToNul(name)[..Min(|UpToNul(name)|, 127)]
  {
    var text := UpToNul(name);
    var k := Min(|text|, MAX_NAME_LEN - 1);
    NoNulInside(name);
    UpToNulSplit(NameField(name), k);
    assert NameField(name)[..k] == text[..k];
    assert UpToNul(NameField(name)[k..]) == [];
  }

  lemma {:induction false} NoNulInside(s: string)
    ensures '\0' !in UpToNul(s) && |UpToNul(s)| <= |s|
  {
    if s != [] && s[0] != '\0' {
      NoNulInside(s[1..]);
    }
  }
}
