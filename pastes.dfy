/**
 * The response-to-object mapping of mystbin/paste.py: `File` and `Paste`,
 * their keyword constructors and their `from_data` factories.
 *
 * A Python exception becomes a `Failure`: `KeyError` from `payload[key]` is
 * `MissingKey(key)` and `ValueError` from `datetime.fromisoformat` is
 * `InvalidIsoFormat(text)`. The ISO-8601 parser itself is a parameter.
 */
module Pastes {
  import opened Wrappers
  import opened PyStr
  import opened Responses

  datatype Error = MissingKey(key: string) | InvalidIsoFormat(text: string)

  /** What `datetime.fromisoformat` returns; the model never looks inside. */
  datatype DateTime = DateTime(
    year: int, month: int, day: int,
    hour: int, minute: int, second: int, microsecond: int,
    utcOffsetMinutes: Option<int>)

  /** `datetime.fromisoformat`: `None` where it raises `ValueError`. */
  type IsoParser = string -> Option<DateTime>

  /** A value of the mapping returned by `File.to_dict`. */
  datatype DictValue = StrValue(s: string) | NoneValue

  const LineSeparator: char := '\n'
  const ExtensionSeparator: char := '.'

  /** `payload[key]`: the value, or `KeyError` when the key is absent. */
  function Lookup<T>(field: Option<T>, key: string): Result<T, Error>
  {
    match field
    case Some(v) => Success(v)
    case None => Failure(MissingKey(key))
  }

  /** `payload.get(key)` on a key whose value may be `null`. */
  function Get<T>(field: Option<Option<T>>): Option<T>
  {
    match field
    case Some(v) => v
    case None => None
  }

  /** Python truthiness of an `Optional[int]`: not `None` and not `0`. */
  predicate TruthyInt(n: Option<int>)
  {
    n.Some? && n.value != 0
  }

  /** Python truthiness of an `Optional[str]`: not `None` and not `""`. */
  predicate TruthyStr(s: Option<string>)
  {
    s.Some? && s.value != ""
  }

  /** `filename.rsplit(".")[-1]`: the extension used as the syntax hint. */
  function SyntaxOf(filename: string): (syntax: string)
    ensures IsLastSegment(filename, ExtensionSeparator, syntax)
    ensures ExtensionSeparator !in filename ==> syntax == filename
    ensures |filename| > 0 && filename[|filename| - 1] == ExtensionSeparator ==> syntax == ""
  {
    RSplitLastIsLastSegment(filename, ExtensionSeparator);
    assert filename[0..] == filename;
    Last(RSplit(filename, ExtensionSeparator))
  }

  /** `fromisoformat(text)` where the call is unconditional. */
  function ParseIso(text: string, parse: IsoParser): (r: Result<DateTime, Error>)
    ensures r.Success? <==> parse(text).Some?
    ensures r.Success? ==> Some(r.value) == parse(text)
    ensures r.Failure? ==> r.error == InvalidIsoFormat(text)
  {
    match parse(text)
    case Some(t) => Success(t)
    case None => Failure(InvalidIsoFormat(text))
  }

  /** `fromisoformat(text) if text else None`. */
  function ParseIfTruthy(text: Option<string>, parse: IsoParser): (r: Result<Option<DateTime>, Error>)
    ensures r.Success? <==> !TruthyStr(text) || parse(text.value).Some?
    ensures r.Success? ==> (r.value.None? <==> text.None? || text.value == "")
    ensures r.Success? && TruthyStr(text) ==> r.value == parse(text.value)
    ensures r.Failure? ==> r.error == InvalidIsoFormat(text.value)
  {
    if TruthyStr(text) then
      var t :- ParseIso(text.value, parse);
      Success(Some(t))
    else
      Success(None)
  }

  /** One file of a paste; constructed once and never updated. */
  datatype File = File(
    filename: string,
    content: string,
    syntax: Option<string>,
    linesOfCode: int,
    characterCount: int)
  {
    /**
     * `File(filename=..., content=..., syntax=..., lines_of_code=..., character_count=...)`:
     * a metric that is `None` or `0` is derived from the content.
     */
    static function New(filename: string, content: string, syntax: Option<string>,
                        linesOfCode: Option<int>, characterCount: Option<int>): (f: File)
      ensures f.filename == filename && f.content == content && f.syntax == syntax
      ensures f.linesOfCode
        == if TruthyInt(linesOfCode) then linesOfCode.value else Count(content, LineSeparator) + 1
      ensures f.characterCount
        == if TruthyInt(characterCount) then characterCount.value else |content|
    {
      SplitLength(content, LineSeparator);
      File(filename, content, syntax,
           if TruthyInt(linesOfCode) then linesOfCode.value else |Split(content, LineSeparator)|,
           if TruthyInt(characterCount) then characterCount.value else |content|)
    }

    /** `File.from_data(payload)`. */
    static function FromData(payload: FileResponse): (r: Result<File, Error>)
      ensures r.Success? <==>
        payload.content.Some? && payload.filename.Some? && payload.loc.Some? && payload.charcount.Some?
      ensures payload.content.None? ==> r == Failure(MissingKey("content"))
      ensures payload.content.Some? && payload.filename.None? ==> r == Failure(MissingKey("filename"))
      ensures payload.content.Some? && payload.filename.Some? && payload.loc.None?
        ==> r == Failure(MissingKey("loc"))
      ensures payload.content.Some? && payload.filename.Some? && payload.loc.Some? && payload.charcount.None?
        ==> r == Failure(MissingKey("charcount"))
      ensures r.Success? ==>
        var f := r.value;
        && f.content == payload.content.value
        && f.filename == payload.filename.value
        && f.syntax.Some? && IsLastSegment(f.filename, ExtensionSeparator, f.syntax.value)
        && f.linesOfCode
           == (if payload.loc.value != 0 then payload.loc.value else Count(f.content, LineSeparator) + 1)
        && f.characterCount
           == (if payload.charcount.value != 0 then payload.charcount.value else |f.content|)
    {
      var content :- Lookup(payload.content, "content");
      var filename :- Lookup(payload.filename, "filename");
      var loc :- Lookup(payload.loc, "loc");
      var charcount :- Lookup(payload.charcount, "charcount");
      Success(New(filename, content, Some(SyntaxOf(filename)), Some(loc), Some(charcount)))
    }

    /** `file.to_dict()`: the three fields an outbound request carries. */
    function ToDict(): (d: map<string, DictValue>)
      ensures d.Keys == {"content", "filename", "syntax"}
      ensures d["content"] == StrValue(content) && d["filename"] == StrValue(filename)
      ensures d["syntax"] == if syntax.Some? then StrValue(syntax.value) else NoneValue
    {
      map["content" := StrValue(content),
          "filename" := StrValue(filename),
          "syntax" := if syntax.Some? then StrValue(syntax.value) else NoneValue]
    }
  }

  /** Every payload in `payloads` converts to a `File`. */
  predicate AllFilesConvert(payloads: seq<FileResponse>)
  {
    forall i :: 0 <= i < |payloads| ==> File.FromData(payloads[i]).Success?
  }

  /**
   * `[File.from_data(data) for data in payloads]`: order and length are kept,
   * and any payload that fails makes the whole list fail.
   */
  function FilesFromData(payloads: seq<FileResponse>): (r: Result<seq<File>, Error>)
    ensures r.Success? <==> AllFilesConvert(payloads)
    ensures r.Success? ==>
      && |r.value| == |payloads|
      && forall i :: 0 <= i < |payloads| ==> Success(r.value[i]) == File.FromData(payloads[i])
    ensures r.Failure? ==> r.error.MissingKey?
  {
    if payloads == [] then Success([])
    else
      var first :- File.FromData(payloads[0]);
      var rest :- FilesFromData(payloads[1..]);
      Success([first] + rest)
  }

  /** The error of a failing file list is that of its first failing payload. */
  lemma {:induction false} FilesFromDataFailsAtFirst(payloads: seq<FileResponse>)
    requires FilesFromData(payloads).Failure?
    ensures exists k :: (0 <= k < |payloads| && AllFilesConvert(payloads[..k])
                         && File.FromData(payloads[k]) == Failure(FilesFromData(payloads).error))
  {
    if File.FromData(payloads[0]).Failure? {
      assert AllFilesConvert(payloads[..0]);
    } else {
      var tail := payloads[1..];
      FilesFromDataFailsAtFirst(tail);
      var j :| 0 <= j < |tail| && AllFilesConvert(tail[..j])
               && File.FromData(tail[j]) == Failure(FilesFromData(tail).error);
      var e := FilesFromData(tail).error;
      assert FilesFromData(payloads) == Failure(e);
      assert tail[j] == payloads[j + 1];
      var done, doneTail := payloads[..j + 1], tail[..j];
      forall i | 0 <= i < |done|
        ensures File.FromData(done[i]).Success?
      {
        if i == 0 {
          assert done[i] == payloads[0];
        } else {
          assert done[i] == doneTail[i - 1];
          assert File.FromData(doneTail[i - 1]).Success?;
        }
      }
      assert AllFilesConvert(done);
    }
  }

  /** A paste; constructed once and never updated. */
  datatype Paste = Paste(
    id: string,
    createdAt: DateTime,
    expires: Option<DateTime>,
    lastEdited: Option<DateTime>,
    files: seq<File>,
    views: Option<int>)
  {
    /**
     * `Paste(id=..., created_at=..., expires=..., last_edited=..., files=..., views=...)`:
     * `created_at` is always parsed, `expires` and `last_edited` only when truthy.
     */
    static function New(id: string, createdAt: string, expires: Option<string>,
                        lastEdited: Option<string>, files: seq<File>, views: Option<int>,
                        parse: IsoParser): (r: Result<Paste, Error>)
      ensures r.Success? <==>
        && parse(createdAt).Some?
        && (TruthyStr(expires) ==> parse(expires.value).Some?)
        && (TruthyStr(lastEdited) ==> parse(lastEdited.value).Some?)
      ensures parse(createdAt).None? ==> r == Failure(InvalidIsoFormat(createdAt))
      ensures parse(createdAt).Some? && TruthyStr(expires) && parse(expires.value).None?
        ==> r == Failure(InvalidIsoFormat(expires.value))
      ensures parse(createdAt).Some? && (TruthyStr(expires) ==> parse(expires.value).Some?)
        && TruthyStr(lastEdited) && parse(lastEdited.value).None?
        ==> r == Failure(InvalidIsoFormat(lastEdited.value))
      ensures r.Failure? ==> r.error.InvalidIsoFormat?
      ensures r.Success? ==>
        var p := r.value;
        && p.id == id && p.files == files && p.views == views
        && Some(p.createdAt) == parse(createdAt)
        && (p.expires.None? <==> expires.None? || expires.value == "")
        && (TruthyStr(expires) ==> p.expires == parse(expires.value))
        && (p.lastEdited.None? <==> lastEdited.None? || lastEdited.value == "")
        && (TruthyStr(lastEdited) ==> p.lastEdited == parse(lastEdited.value))
    {
      var created :- ParseIso(createdAt, parse);
      var expiresAt :- ParseIfTruthy(expires, parse);
      var editedAt :- ParseIfTruthy(lastEdited, parse);
      Success(Paste(id, created, expiresAt, editedAt, files, views))
    }

    /** `Paste.from_data(payload)`. */
    static function FromData(payload: PasteResponse, parse: IsoParser): (r: Result<Paste, Error>)
      ensures payload.files.None? ==> r == Failure(MissingKey("files"))
      ensures payload.files.Some? && !AllFilesConvert(payload.files.value) ==>
        r.Failure? && r.error.MissingKey?
      ensures payload.files.Some? && AllFilesConvert(payload.files.value) && payload.id.None?
        ==> r == Failure(MissingKey("id"))
      ensures payload.files.Some? && AllFilesConvert(payload.files.value) && payload.id.Some?
        && payload.createdAt.None?
        ==> r == Failure(MissingKey("created_at"))
      ensures payload.files.Some? && AllFilesConvert(payload.files.value) && payload.id.Some?
        && payload.createdAt.Some? && payload.expires.None?
        ==> r == Failure(MissingKey("expires"))
      ensures r.Success? <==>
        && payload.files.Some? && AllFilesConvert(payload.files.value)
        && payload.id.Some? && payload.createdAt.Some? && payload.expires.Some?
        && parse(payload.createdAt.value).Some?
        && (TruthyStr(payload.expires.value) ==> parse(payload.expires.value.value).Some?)
        && (TruthyStr(Get(payload.lastEdited)) ==> parse(Get(payload.lastEdited).value).Some?)
      ensures payload.files.Some? && AllFilesConvert(payload.files.value) && payload.id.Some?
        && payload.createdAt.Some? && payload.expires.Some? && parse(payload.createdAt.value).None?
        ==> r == Failure(InvalidIsoFormat(payload.createdAt.value))
      ensures payload.files.Some? && AllFilesConvert(payload.files.value) && payload.id.Some?
        && payload.createdAt.Some? && payload.expires.Some? && parse(payload.createdAt.value).Some?
        && TruthyStr(payload.expires.value) && parse(payload.expires.value.value).None?
        ==> r == Failure(InvalidIsoFormat(payload.expires.value.value))
      ensures payload.files.Some? && AllFilesConvert(payload.files.value) && payload.id.Some?
        && payload.createdAt.Some? && payload.expires.Some? && parse(payload.createdAt.value).Some?
        && (TruthyStr(payload.expires.value) ==> parse(payload.expires.value.value).Some?)
        && TruthyStr(Get(payload.lastEdited)) && parse(Get(payload.lastEdited).value).None?
        ==> r == Failure(InvalidIsoFormat(Get(payload.lastEdited).value))
      ensures r.Success? ==>
        var p := r.value;
        var payloads := payload.files.value;
        && p.id == payload.id.value
        && |p.files| == |payloads|
        && (forall i :: 0 <= i < |payloads| ==> Success(p.files[i]) == File.FromData(payloads[i]))
        && p.views == payload.views
        && Some(p.createdAt) == parse(payload.createdAt.value)
        && (p.expires.None? <==> payload.expires.value.None? || payload.expires.value.value == "")
        && (TruthyStr(payload.expires.value) ==> p.expires == parse(payload.expires.value.value))
        && (TruthyStr(Get(payload.lastEdited)) ==> p.lastEdited == parse(Get(payload.lastEdited).value))
        && (p.lastEdited.None? <==>
              payload.lastEdited.None? || payload.lastEdited.value.None?
              || payload.lastEdited.value.value == "")
    {
      var payloads :- Lookup(payload.files, "files");
      var files :- FilesFromData(payloads);
      var id :- Lookup(payload.id, "id");
      var createdAt :- Lookup(payload.createdAt, "created_at");
      var expires :- Lookup(payload.expires, "expires");
      New(id, createdAt, expires, Get(payload.lastEdited), files, payload.views, parse)
    }
  }
}
