/** How thumbnails are named and when originals are used instead: newThumbnailID, getThumbnailExt, getImageType,
    shouldUseOriginalImage and the format switch of resizeWithVips in thumbnails/service.go. */
module ThumbnailNames {
  import opened Text
  import opened Wrappers

  /** rview.FileID; the path is already clean. */
  datatype FileID = FileID(path: string, modTime: int, size: int)

  datatype ImageType = Unsupported | Jpeg | Png | Gif | Webp | Heic | Avif | Raw

  datatype Size = Small | Medium | Large {
    function Text(): string {
      match this
      case Small => "small"
      case Medium => "medium"
      case Large => "large"
    }
  }

  datatype Format = JpegThumbnails | AvifThumbnails

  /** `path.Ext`: the suffix from the last dot of the last path element. */
  function Ext(p: string): string {
    if p == "" || p[|p| - 1] == '/' then ""
    else if p[|p| - 1] == '.' then "."
    else
      var e := Ext(p[..|p| - 1]);
      if e == "" then "" else e + [p[|p| - 1]]
  }

  /** `strings.TrimSuffix(p, path.Ext(p))`. */
  function Stem(p: string): string {
    if |Ext(p)| <= |p| then p[..|p| - |Ext(p)|] else p
  }

  function TypeOf(u: Unicode, id: FileID): ImageType {
    var ext := u.Lower(Ext(id.path));
    if ext == ".jpg" || ext == ".jpeg" then Jpeg
    else if ext == ".png" then Png
    else if ext == ".gif" then Gif
    else if ext == ".webp" then Webp
    else if ext == ".heic" then Heic
    else if ext == ".avif" then Avif
    else if ext == ".arw" || ext == ".rw2" || ext == ".nef" || ext == ".cr3" then Raw
    else Unsupported
  }

  /** Files below the threshold are used as they are, unless they must be converted; gifs always are. */
  predicate ShouldUseOriginal(u: Unicode, threshold: int, id: FileID) {
    match TypeOf(u, id)
    case Gif => true
    case Heic => false
    case Raw => false
    case _ => id.size < threshold
  }

  /** getThumbnailExt: the extension to append, empty if the file keeps its own; `None` is the error. */
  function NewExt(f: Format, t: ImageType): Option<string> {
    match (f, t)
    case (_, Unsupported) => None
    case (_, Gif) => Some("")
    case (_, Webp) => Some("")
    case (_, Avif) => Some("")
    case (JpegThumbnails, Jpeg) => Some("")
    case (JpegThumbnails, Png) => Some(".jpeg")
    case (JpegThumbnails, Heic) => Some(".jpeg")
    case (JpegThumbnails, Raw) => Some(".jpeg")
    case (AvifThumbnails, Jpeg) => Some(".avif")
    case (AvifThumbnails, Png) => Some(".avif")
    case (AvifThumbnails, Heic) => Some(".avif")
    case (AvifThumbnails, Raw) => Some(".avif")
  }

  function Suffix(size: Size): string {
    ".thumbnail-" + size.Text()
  }

  /** newThumbnailID. */
  function NewThumbnailID(u: Unicode, f: Format, id: FileID, size: Size): Option<FileID> {
    match NewExt(f, TypeOf(u, id))
    case None => None
    case Some(ext) =>
      if ext == "" then Some(id.(path := Stem(id.path) + Suffix(size) + Ext(id.path)))
      else Some(id.(path := id.path + Suffix(size) + ext))
  }

  // ------------------------------------------------------------------ extensions

  /** A dot followed by characters that are neither dots nor slashes. */
  predicate ExtLike(e: string) {
    e != "" && e[0] == '.' && forall k :: 1 <= k < |e| ==> e[k] != '.' && e[k] != '/'
  }

  lemma {:induction false} ExtOfAppended(p: string, e: string)
    requires ExtLike(e)
    ensures Ext(p + e) == e
  {
    var q := p + e;
    assert q[|q| - 1] == e[|e| - 1];
    if |e| > 1 {
      var d := e[..|e| - 1];
      assert q[..|q| - 1] == p + d && e == d + [e[|e| - 1]];
      ExtOfAppended(p, d);
    } else {
      assert e == ".";
    }
  }

  lemma {:induction false} ExtGrows(p: string)
    requires p != "" && p[|p| - 1] != '/' && p[|p| - 1] != '.'
    ensures var e := Ext(p[..|p| - 1]); Ext(p) == if e == "" then "" else e + [p[|p| - 1]]
  {}

  lemma {:induction false} ExtSplits(p: string)
    ensures |Ext(p)| <= |p| && p == Stem(p) + Ext(p)
    ensures Ext(p) != "" ==> ExtLike(Ext(p))
    decreases p, 1
  {
    if p != "" && p[|p| - 1] != '/' && p[|p| - 1] != '.' {
      SplitsLonger(p);
    }
  }

  lemma {:induction false} SplitsLonger(p: string)
    requires p != "" && p[|p| - 1] != '/' && p[|p| - 1] != '.'
    ensures |Ext(p)| <= |p| && p == Stem(p) + Ext(p)
    ensures Ext(p) != "" ==> ExtLike(Ext(p))
    decreases p, 0
  {
    hide Ext;
    var q, c := p[..|p| - 1], p[|p| - 1];
    ExtSplits(q);
    ExtGrows(p);
    if Ext(q) != "" {
      Longer(q, Ext(q), c);
      assert p == q + [c];
    }
  }

  lemma Longer(q: string, e: string, c: char)
    requires |e| <= |q| && q == q[..|q| - |e|] + e
    ensures var p := q + [c]; |e + [c]| <= |p| && p == p[..|p| - |e + [c]|] + (e + [c])
  {
    var p := q + [c];
    assert p[..|p| - |e + [c]|] == q[..|q| - |e|];
  }

  lemma SuffixIsExtLike(s: Size)
    ensures ExtLike(Suffix(s))
    ensures forall t :: Suffix(s) == Suffix(t) ==> s == t
  {
    assert Suffix(Small)[11] == 's' && Suffix(Medium)[11] == 'm' && Suffix(Large)[11] == 'l';
  }

  /** A name made of a base, the infix for a size, and an extension determines all three. */
  lemma NameDetermines(base: string, s: Size, e: string, base': string, s': Size, e': string)
    requires ExtLike(e) && ExtLike(e') && base + Suffix(s) + e == base' + Suffix(s') + e'
    ensures base == base' && s == s' && e == e'
  {
    ExtOfAppended(base + Suffix(s), e);
    ExtOfAppended(base' + Suffix(s'), e');
    SameWithoutSuffix(base + Suffix(s), base' + Suffix(s'), e);
    SuffixIsExtLike(s);
    SuffixIsExtLike(s');
    ExtOfAppended(base, Suffix(s));
    ExtOfAppended(base', Suffix(s'));
    SameWithoutSuffix(base, base', Suffix(s));
  }

  lemma SameWithoutSuffix(a: string, b: string, e: string)
    requires a + e == b + e
    ensures a == b
  {
    assert a == (a + e)[..|a|] && b == (b + e)[..|b|];
  }

  /** The base and the extension of the thumbnail's name. */
  function Base(u: Unicode, f: Format, id: FileID): string {
    if NewExt(f, TypeOf(u, id)) == Some("") then Stem(id.path) else id.path
  }

  function FinalExt(u: Unicode, f: Format, id: FileID): string {
    match NewExt(f, TypeOf(u, id))
    case None => ""
    case Some(ext) => if ext == "" then Ext(id.path) else ext
  }

  lemma SupportedHasExt(u: Unicode, id: FileID)
    requires TypeOf(u, id) != Unsupported
    ensures Ext(id.path) != ""
  {
    assert u.Lower("") == "";
  }

  lemma NameParts(u: Unicode, f: Format, id: FileID, s: Size)
    requires TypeOf(u, id) != Unsupported
    ensures NewThumbnailID(u, f, id, s) == Some(id.(path := Base(u, f, id) + Suffix(s) + FinalExt(u, f, id)))
    ensures ExtLike(FinalExt(u, f, id))
  {
    hide Ext, TypeOf;
    SupportedHasExt(u, id);
    ExtSplits(id.path);
  }

  /** A file that keeps its extension is named like another file plus the extension generated for that one. */
  predicate Shadows(u: Unicode, f: Format, a: FileID, b: FileID) {
    var ext := NewExt(f, TypeOf(u, b));
    ext.Some? && ext.value != "" && a.path == b.path + ext.value
  }

  lemma GeneratedExts(f: Format, t: ImageType)
    requires NewExt(f, t).Some? && NewExt(f, t).value != ""
    ensures NewExt(f, t).value == match f case JpegThumbnails => ".jpeg" case AvifThumbnails => ".avif"
  {}

  lemma LowerGenerated(u: Unicode)
    requires u.KeepsLowerAscii()
    ensures u.Lower(".jpeg") == ".jpeg" && u.Lower(".avif") == ".avif"
  {}

  lemma TypeOfGenerated(u: Unicode, f: Format, id: FileID)
    requires u.KeepsLowerAscii()
             && Ext(id.path) == match f case JpegThumbnails => ".jpeg" case AvifThumbnails => ".avif"
    ensures NewExt(f, TypeOf(u, id)) == Some("")
  {
    hide Ext;
    LowerGenerated(u);
  }

  /** A generated extension is one that its own files keep. */
  lemma GeneratedIsKept(u: Unicode, f: Format, a: FileID, b: FileID)
    requires u.KeepsLowerAscii() && Shadows(u, f, a, b)
    ensures NewExt(f, TypeOf(u, a)) == Some("") && Stem(a.path) == b.path
            && Ext(a.path) == NewExt(f, TypeOf(u, b)).value
  {
    hide TypeOf, Ext, NewExt;
    var ext := NewExt(f, TypeOf(u, b)).value;
    GeneratedExts(f, TypeOf(u, b));
    ExtOfAppended(b.path, ext);
    TypeOfGenerated(u, f, a);
  }

  /** Two thumbnails have the same name if and only if they are for the same size of the same file, or for the same
      size of two files of equal time and length one of which shadows the other. */
  lemma NamesCollideExactly(u: Unicode, f: Format, a: FileID, s: Size, b: FileID, t: Size)
    requires u.KeepsLowerAscii() && TypeOf(u, a) != Unsupported && TypeOf(u, b) != Unsupported
    ensures NewThumbnailID(u, f, a, s) == NewThumbnailID(u, f, b, t) <==>
              s == t && a.modTime == b.modTime && a.size == b.size
              && (a.path == b.path || Shadows(u, f, a, b) || Shadows(u, f, b, a))
  {
    hide TypeOf, Ext, Stem, Suffix;
    NameParts(u, f, a, s);
    NameParts(u, f, b, t);
    ExtSplits(a.path);
    ExtSplits(b.path);
    if NewThumbnailID(u, f, a, s) == NewThumbnailID(u, f, b, t) {
      NameDetermines(Base(u, f, a), s, FinalExt(u, f, a), Base(u, f, b), t, FinalExt(u, f, b));
      GeneratedIsUniform(u, f, a, b);
    }
    if Shadows(u, f, a, b) { GeneratedIsKept(u, f, a, b); }
    if Shadows(u, f, b, a) { GeneratedIsKept(u, f, b, a); }
    if a.path == b.path { SameType(u, a, b); }
  }

  lemma PngAndJpeg(u: Unicode, a: FileID, b: FileID)
    requires u.KeepsLowerAscii() && a.path == "a.png" && b.path == "a.png.jpeg"
    ensures TypeOf(u, a).Png? && TypeOf(u, b).Jpeg?
  {
    hide Ext, TypeOf;
    assert a.path == "a" + ".png" && b.path == "a.png" + ".jpeg";
    ExtOfAppended("a", ".png");
    ExtOfAppended("a.png", ".jpeg");
    ExtDecides(u, a);
    ExtDecides(u, b);
  }

  lemma ExtDecides(u: Unicode, a: FileID)
    requires u.KeepsLowerAscii()
    ensures Ext(a.path) == ".png" ==> TypeOf(u, a).Png?
    ensures Ext(a.path) == ".jpeg" ==> TypeOf(u, a).Jpeg?
  {
    hide Ext;
    assert u.Lower(".png") == ".png" && u.Lower(".jpeg") == ".jpeg";
  }

  /** The thumbnails of "a.png" and "a.png.jpeg" have one id, if time and length agree. */
  lemma PngMeetsJpeg(u: Unicode, time: int, length: int, s: Size)
    requires u.KeepsLowerAscii()
    ensures var a, b := FileID("a.png", time, length), FileID("a.png.jpeg", time, length);
            NewThumbnailID(u, JpegThumbnails, a, s) == NewThumbnailID(u, JpegThumbnails, b, s) != None
  {
    hide TypeOf, NewThumbnailID;
    var a, b := FileID("a.png", time, length), FileID("a.png.jpeg", time, length);
    PngAndJpeg(u, a, b);
    assert b.path == a.path + ".jpeg";
    NameParts(u, JpegThumbnails, a, s);
    NamesCollideExactly(u, JpegThumbnails, a, s, b, s);
  }

  lemma SameType(u: Unicode, a: FileID, b: FileID)
    requires a.path == b.path
    ensures TypeOf(u, a) == TypeOf(u, b)
  {}

  lemma GeneratedIsUniform(u: Unicode, f: Format, a: FileID, b: FileID)
    requires TypeOf(u, a) != Unsupported && TypeOf(u, b) != Unsupported
    requires Base(u, f, a) == Base(u, f, b) && FinalExt(u, f, a) == FinalExt(u, f, b)
    ensures a.path == b.path || Shadows(u, f, a, b) || Shadows(u, f, b, a)
  {
    hide TypeOf, Ext;
    ExtSplits(a.path);
    ExtSplits(b.path);
  }

  /** resizeWithVips can write the type. */
  predicate Writable(t: ImageType) {
    t.Jpeg? || t.Webp? || t.Avif?
  }

  /** Every thumbnail that has to be generated gets a type that the resize command can write. */
  lemma ResizedTypesAreWritable(u: Unicode, f: Format, threshold: int, id: FileID, s: Size)
    requires u.KeepsLowerAscii() && TypeOf(u, id) != Unsupported && !ShouldUseOriginal(u, threshold, id)
    ensures NewThumbnailID(u, f, id, s).Some? && Writable(TypeOf(u, NewThumbnailID(u, f, id, s).value))
  {
    hide Ext, Stem;
    NameParts(u, f, id, s);
    var ext := FinalExt(u, f, id);
    ExtOfAppended(Base(u, f, id) + Suffix(s), ext);
    if NewExt(f, TypeOf(u, id)) != Some("") {
      assert u.Lower(ext) == ext;
    }
  }

  /** The name of a generated thumbnail is the id of a file that would be used as it is exactly if the source is
      below the threshold; such a source is one of the formats that are always converted. */
  lemma OriginalsCollideExactly(u: Unicode, f: Format, threshold: int, id: FileID, s: Size)
    requires u.KeepsLowerAscii() && TypeOf(u, id) != Unsupported && !ShouldUseOriginal(u, threshold, id)
    ensures NewThumbnailID(u, f, id, s).Some?
    ensures ShouldUseOriginal(u, threshold, NewThumbnailID(u, f, id, s).value) <==> id.size < threshold
    ensures id.size < threshold ==> TypeOf(u, id).Heic? || TypeOf(u, id).Raw?
  {
    hide TypeOf, Ext;
    ResizedTypesAreWritable(u, f, threshold, id, s);
    NameParts(u, f, id, s);
  }
}
