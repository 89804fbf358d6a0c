/** The names of thumbnails and the protocol together: whose thumbnail a caller finds in the cache. */
module ThumbnailRequests {
  import opened Text
  import opened Wrappers
  import opened ThumbnailNames
  import opened ThumbnailProtocol
  import opened ThumbnailSafety

  /** What the service is configured with: the letters, the format of thumbnails, and below which size an original is
      used as it is. */
  datatype Config = Config(u: Unicode, format: Format, threshold: int)

  /** The task that OpenThumbnail makes of its arguments, or nothing for an error. */
  function Request(c: Config, id: FileID, size: Size): Option<Task> {
    if TypeOf(c.u, id).Unsupported? || id.size <= 0 then None
    else if ShouldUseOriginal(c.u, c.threshold, id) then Some(Task(id, id, true, TypeOf(c.u, id).Raw?))
    else match NewThumbnailID(c.u, c.format, id, size)
      case None => None
      case Some(thumb) => Some(Task(id, thumb, false, TypeOf(c.u, id).Raw?))
  }

  // ------------------------------------------------------------------ requests, extension by extension

  predicate IsRawExt(l: string) {
    l == ".arw" || l == ".rw2" || l == ".nef" || l == ".cr3"
  }

  predicate IsSupportedExt(l: string) {
    || l == ".jpg" || l == ".jpeg" || l == ".png" || l == ".gif" || l == ".webp" || l == ".heic" || l == ".avif"
    || IsRawExt(l)
  }

  /** Files with these extensions change their type: most browsers cannot show them, or the format asks for it. */
  predicate IsConverted(f: Format, l: string) {
    || l == ".png" || l == ".heic" || IsRawExt(l)
    || (f.AvifThumbnails? && (l == ".jpg" || l == ".jpeg"))
  }

  function SizeName(size: Size): string {
    match size
    case Small => "small"
    case Medium => "medium"
    case Large => "large"
  }

  lemma TypeByExtension(u: Unicode, id: FileID)
    ensures var l, t := u.Lower(Ext(id.path)), TypeOf(u, id);
            && (t.Unsupported? <==> !IsSupportedExt(l)) && (t.Raw? <==> IsRawExt(l))
            && (t.Gif? <==> l == ".gif") && (t.Heic? <==> l == ".heic") && (t.Jpeg? <==> l == ".jpg" || l == ".jpeg")
            && (t.Png? <==> l == ".png") && (t.Webp? <==> l == ".webp") && (t.Avif? <==> l == ".avif")
  {
    hide Ext;
  }

  lemma ConvertedTypes(u: Unicode, f: Format, id: FileID)
    requires !TypeOf(u, id).Unsupported?
    ensures NewExt(f, TypeOf(u, id)) ==
            Some(if IsConverted(f, u.Lower(Ext(id.path))) then (if f.JpegThumbnails? then ".jpeg" else ".avif") else "")
  {
    TypeByExtension(u, id);
    hide TypeOf, Ext;
  }

  /** The name of a generated thumbnail. */
  function ThumbPath(f: Format, base: string, e: string, l: string, size: Size): string {
    if IsConverted(f, l)
    then base + e + (".thumbnail-" + SizeName(size)) + (if f.JpegThumbnails? then ".jpeg" else ".avif")
    else base + (".thumbnail-" + SizeName(size)) + e
  }

  lemma GeneratedName(u: Unicode, f: Format, base: string, e: string, id: FileID, size: Size)
    requires ExtLike(e) && id.path == base + e && !TypeOf(u, id).Unsupported?
    ensures NewThumbnailID(u, f, id, size) == Some(id.(path := ThumbPath(f, base, e, u.Lower(e), size)))
  {
    ExtOfAppended(base, e);
    assert Stem(id.path) == base;
    assert Suffix(size) == ".thumbnail-" + SizeName(size);
    ConvertedTypes(u, f, id);
    hide TypeOf, Ext, Suffix, Stem, NewExt, IsConverted;
  }

  /** What a request for a file with an extension comes to: an error for an unknown extension and an empty file; the
      file itself for a gif, and for a small file that need not be converted; and otherwise a thumbnail with this
      name. */
  lemma RequestByExtension(c: Config, base: string, e: string, time: int, length: int, size: Size)
    requires ExtLike(e)
    ensures var l, id := c.u.Lower(e), FileID(base + e, time, length);
            && (Request(c, id, size).None? <==> !IsSupportedExt(l) || length <= 0)
            && (Request(c, id, size).Some? ==>
                  var t := Request(c, id, size).value;
                  && t.file == id && (t.raw <==> IsRawExt(l))
                  && (t.useOriginal <==> l == ".gif" || (l != ".heic" && !IsRawExt(l) && length < c.threshold))
                  && t.thumb == if t.useOriginal then id
                                else FileID(ThumbPath(c.format, base, e, l, size), time, length))
  {
    var id := FileID(base + e, time, length);
    ExtOfAppended(base, e);
    TypeByExtension(c.u, id);
    if !TypeOf(c.u, id).Unsupported? { GeneratedName(c.u, c.format, base, e, id, size); }
    hide TypeOf, Ext, NewThumbnailID, ThumbPath, IsSupportedExt, IsRawExt;
  }

  /** A request for a file without an extension is an error. */
  lemma NoExtensionNoThumbnail(c: Config, id: FileID, size: Size)
    requires Ext(id.path) == ""
    ensures Request(c, id, size).None?
  {
    if !TypeOf(c.u, id).Unsupported? { SupportedHasExt(c.u, id); }
  }

  // ------------------------------------------------------------------ runs of requests

  ghost predicate IsRequest(c: Config, t: Task) {
    exists size :: Request(c, t.file, size) == Some(t)
  }

  /** Every call of the run is for a task that OpenThumbnail makes. */
  ghost predicate OnlyRequests(c: Config, steps: seq<Step>) {
    forall step :: step in steps && step.Call? && step.ca.Start? ==> IsRequest(c, step.ca.task)
  }

  predicate HasTask(c: Caller) {
    !c.Outside?
  }

  ghost predicate Requested(c: Config, s: State) {
    && (forall i :: 0 <= i < |s.callers| && HasTask(s.callers[i]) ==> IsRequest(c, s.callers[i].task))
    && (forall t :: t in s.out.marked ==> IsRequest(c, t))
  }

  lemma CallerKeepsRequested(c: Config, s: State, i: nat, a: CallerAction)
    requires Requested(c, s) && CallerEnabled(s, i, a) && (a.Start? ==> IsRequest(c, a.task))
    ensures Requested(c, CallerNext(s, i, a))
  {
    hide IsRequest;
  }

  lemma RequestedKept(c: Config, s: State, step: Step)
    requires Requested(c, s) && Enabled(s, step) && OnlyRequests(c, [step])
    ensures Requested(c, Next(s, step))
  {
    hide IsRequest, CallerNext, FetchNext, OutputNext, EnvNext, RestartNext;
    match step
    case Call(i, a) => assert step in [step]; CallerKeepsRequested(c, s, i, a);
    case Loop(_, _) =>
    case Fetch(w, a) => FetchFrame(s, w, a);
    case Output(w, a) => OutputFrame(s, w, a);
    case Env(a) => EnvFrame(s, a);
    case Restart => RestartFrame(s);
  }

  lemma {:induction false} RunsKeepRequested(c: Config, s: State, steps: seq<Step>, t: State)
    requires Requested(c, s) && Reaches(s, steps, t) && OnlyRequests(c, steps)
    ensures Requested(c, t)
    decreases |steps|
  {
    hide Enabled, Next, IsRequest, Requested;
    if |steps| > 0 {
      assert steps[0] in steps;
      RequestedKept(c, s, steps[0]);
      RunsKeepRequested(c, Next(s, steps[0]), steps[1..], t);
    }
  }

  /** The name of a generated thumbnail for a file above the threshold is no file that is used as it is. */
  lemma NeverCopied(c: Config, file: FileID, size: Size, t: Task)
    requires c.u.KeepsLowerAscii() && Request(c, file, size).Some? && !Request(c, file, size).value.useOriginal
    requires IsRequest(c, t) && t.thumb == Request(c, file, size).value.thumb && file.size >= c.threshold
    ensures !t.useOriginal
  {
    hide TypeOf, ShouldUseOriginal, NewThumbnailID;
    OriginalsCollideExactly(c.u, c.format, c.threshold, file, size);
  }

  /** A thumbnail id keeps the time and length of its file. */
  lemma ThumbKeepsStats(c: Config, t: Task)
    requires IsRequest(c, t)
    ensures t.thumb.modTime == t.file.modTime && t.thumb.size == t.file.size
  {
    hide TypeOf, ShouldUseOriginal, Ext, Stem, NewExt;
  }

  /** The first file's generated thumbnail has the very id of the second file.  The first one is small, and of a format
      that is always converted. */
  ghost predicate Generates(c: Config, a: FileID, b: FileID) {
    && a.size < c.threshold && (TypeOf(c.u, a).Heic? || TypeOf(c.u, a).Raw?)
    && exists size :: Request(c, a, size) == Some(Task(a, b, false, TypeOf(c.u, a).Raw?))
  }

  /** The files can have one thumbnail id: they agree in time and length, and they are one file, or one is named like
      the other plus its generated extension, or one is named like a generated thumbnail of the other. */
  ghost predicate ShareId(c: Config, a: FileID, b: FileID) {
    && a.modTime == b.modTime && a.size == b.size
    && (a == b || Shadows(c.u, c.format, a, b) || Shadows(c.u, c.format, b, a) || Generates(c, a, b)
       || Generates(c, b, a))
  }

  /** A file that is used as it is has the id of a generated thumbnail only if it is named like it. */
  lemma OriginalMeetsResized(c: Config, s: Task, t: Task)
    requires c.u.KeepsLowerAscii() && IsRequest(c, s) && IsRequest(c, t) && s.thumb == t.thumb
    requires s.useOriginal && !t.useOriginal
    ensures Generates(c, t.file, s.file)
  {
    hide TypeOf, ShouldUseOriginal, NewThumbnailID;
    var y :| Request(c, t.file, y) == Some(t);
    assert t == Task(t.file, s.file, false, TypeOf(c.u, t.file).Raw?);
    OriginalsCollideExactly(c.u, c.format, c.threshold, t.file, y);
  }

  /** The tasks of two requests with one thumbnail are for files that can share an id; large files that are resized
      share theirs only with files named like them up to a generated extension. */
  lemma SameThumb(c: Config, s: Task, t: Task)
    requires c.u.KeepsLowerAscii() && IsRequest(c, s) && IsRequest(c, t) && s.thumb == t.thumb
    ensures ShareId(c, s.file, t.file)
    ensures !t.useOriginal && t.file.size >= c.threshold ==>
              s.file == t.file || Shadows(c.u, c.format, s.file, t.file) || Shadows(c.u, c.format, t.file, s.file)
  {
    hide TypeOf, ShouldUseOriginal, Shadows, NewThumbnailID;
    ThumbKeepsStats(c, s);
    ThumbKeepsStats(c, t);
    var x :| Request(c, s.file, x) == Some(s);
    var y :| Request(c, t.file, y) == Some(t);
    if s.useOriginal && !t.useOriginal {
      OriginalMeetsResized(c, s, t);
    } else if !s.useOriginal && t.useOriginal {
      OriginalMeetsResized(c, t, s);
    } else if !s.useOriginal {
      NamesCollideExactly(c.u, c.format, s.file, x, t.file, y);
    }
  }

  lemma RawIsRequested(c: Config, t: Task)
    requires IsRequest(c, t)
    ensures t.raw == TypeOf(c.u, t.file).Raw?
  {
    hide TypeOf, ShouldUseOriginal, NewThumbnailID;
  }

  /** The entry is a complete thumbnail of this file or of one that can share its id; and only of a RAW image can it
      have been made from an incomplete original, after some trouble with it. */
  ghost predicate IsThumbOf(c: Config, o: Originals, e: Entry, file: FileID) {
    && e.IsComplete() && ShareId(c, e.of, file)
    && (e.Spoiled? ==> TypeOf(c.u, e.of).Raw? && Troubled(o, e.of))
  }

  /** The entry is one of the file, or of one that is named like it up to a generated extension. */
  predicate IsNamedLike(c: Config, e: Entry, file: FileID) {
    e.IsComplete() ==> e.of == file || Shadows(c.u, c.format, e.of, file) || Shadows(c.u, c.format, file, e.of)
  }

  /** A complete entry for the thumbnail of a request, in a state that only requests led to. */
  lemma EntryIsThumbOf(c: Config, s: State, t: Task, e: Entry)
    requires c.u.KeepsLowerAscii() && Requested(c, s) && IsRequest(c, t) && e.IsComplete()
    requires (e.Whole? ==> MadeFrom(s.out, t.thumb, e.of)) && Excused(s.orig, s.out, t.thumb, e)
    ensures IsThumbOf(c, s.orig, e, t.file)
    ensures !t.useOriginal && t.file.size >= c.threshold ==> IsNamedLike(c, e, t.file)
  {
    hide TypeOf, Shadows, ShareId, IsRequest, Troubled;
    var x :| x in s.out.marked && x.thumb == t.thumb && x.file == e.of && (e.Spoiled? ==> x.raw);
    SameThumb(c, x, t);
    RawIsRequested(c, x);
  }

  lemma ThumbEntry(s: State, id: FileID)
    requires Inv(s)
    ensures Excused(s.orig, s.out, id, Look(s.out.files, id))
    ensures Look(s.out.files, id).Whole? ==> MadeFrom(s.out, id, Look(s.out.files, id).of)
    ensures id in s.out.short ==> CopiedTo(s.out, id)
  {
    hide Ownership, OriginalsOk, GivenOk, TasksMarked, WaitsOk, MarksOk, ReadersOk, ShutdownOk;
    assert ThumbOk(s.workers, s.out, id);
  }

  /** In every run in which all calls are made through OpenThumbnail: while no task for a thumbnail is in progress,
      and no short copy, failed removal or restart left its file broken, its cache entry is missing or a complete
      thumbnail of this file or of one that can share its id; and it was made from the whole original, unless that is
      a RAW image. The entry of a large file is never a short copy, and its id is shared only by files named like it
      up to a generated extension. */
  lemma ThumbnailIsOfItsFile(c: Config, callers: nat, workers: nat, steps: seq<Step>, s: State, file: FileID,
      size: Size)
    requires c.u.KeepsLowerAscii() && Reaches(Init(callers, workers), steps, s) && OnlyRequests(c, steps)
    requires Request(c, file, size).Some?
    ensures var t := Request(c, file, size).value;
            var e := Look(s.out.files, t.thumb);
            && (t.thumb !in s.inProgress && !LeftBroken(s.out, t.thumb) ==> e.Absent? || IsThumbOf(c, s.orig, e, file))
            && (!t.useOriginal && file.size >= c.threshold ==> t.thumb !in s.out.short && IsNamedLike(c, e, file))
  {
    hide TypeOf, ShouldUseOriginal, NewThumbnailID, Look, ShareId, Inv, IsThumbOf, IsNamedLike, Excused;
    var t := Request(c, file, size).value;
    var e := Look(s.out.files, t.thumb);
    RunsKeepRequested(c, Init(callers, workers), steps, s);
    ReachableInv(callers, workers, s);
    ThumbEntry(s, t.thumb);
    if t.thumb !in s.inProgress { AtRest(callers, workers, s, t.thumb); }
    if !t.useOriginal && file.size >= c.threshold && t.thumb in s.out.short {
      var x :| x in s.out.marked && x.thumb == t.thumb && x.useOriginal;
      NeverCopied(c, file, size, x);
    }
    assert t.file == file;
    if e.IsComplete() { EntryIsThumbOf(c, s, t, e); } else { NoEntryNamed(c, e, file); }
  }

  lemma NoEntryNamed(c: Config, e: Entry, file: FileID)
    requires !e.IsComplete()
    ensures IsNamedLike(c, e, file)
  {}

  /** In every run of requests, a call that is given a complete thumbnail is given one made from the file it asked for
      or from one that can share its id, and from the whole of it unless that is a RAW image; if it asked for a large
      file to be resized, from this file or one that is named like it up to a generated extension. */
  lemma CallersAreGivenTheirFile(c: Config, callers: nat, workers: nat, steps: seq<Step>, s: State, i: nat)
    requires c.u.KeepsLowerAscii() && Reaches(Init(callers, workers), steps, s) && OnlyRequests(c, steps)
    requires i < |s.callers| && s.callers[i].Returned? && s.callers[i].got.IsComplete()
    ensures var t, e := s.callers[i].task, s.callers[i].got;
            && IsThumbOf(c, s.orig, e, t.file)
            && (!t.useOriginal && t.file.size >= c.threshold ==> IsNamedLike(c, e, t.file))
  {
    hide Inv, Reaches, IsRequest, IsThumbOf, IsNamedLike, Excused;
    RunsKeepRequested(c, Init(callers, workers), steps, s);
    ReachableInv(callers, workers, s);
    InvGives(s, i);
    EntryIsThumbOf(c, s, s.callers[i].task, s.callers[i].got);
  }

  lemma InvGives(s: State, i: nat)
    requires Inv(s) && i < |s.callers| && s.callers[i].Returned?
    ensures s.callers[i].got.Whole? ==> MadeFrom(s.out, s.callers[i].task.thumb, s.callers[i].got.of)
    ensures Excused(s.orig, s.out, s.callers[i].task.thumb, s.callers[i].got)
  {
    hide Ownership, OriginalsOk, ThumbsOk, WaitsOk, MarksOk, ReadersOk, ShutdownOk;
  }
}
