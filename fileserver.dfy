/** The file-access collaborator's handle table: logical file names map to
    small 16-bit handles, the first name seen getting the next free handle.
    `FileServerMock` keeps registered contents in memory; `FileServerReal`
    allocates handles for names that exist on disk. */
module FileServer {
  import opened Util
  import opened Diagn

  /** `u16::MAX`. */
  const HandleMax: int := 0xFFFF

  type Handle = h: int | 0 <= h <= HandleMax

  type Byte = b: int | 0 <= b < 0x100

  const ExhaustedHandles := "exhausted number of file handles"

  function FileNotFound(filename: string): string
  {
    "file not found: `" + filename + "`"
  }

  /** `report_error`: record one error, at `span` when there is one. */
  function ReportError(report: seq<Message>, span: Option<Span>, descr: string): (r: seq<Message>)
    ensures |r| == |report| + 1 && r[..|report|] == report
    ensures r[|report|].descr == descr && r[|report|].span == span
  {
    match span
    case Some(sp) => ErrorSpan(report, descr, sp)
    case None => report + [Message(descr, None)]
  }

  /** The handle a name gets from a table: its own, or the next free one. */
  function HandleFor(handles: map<string, Handle>, filename: string): nat
  {
    if filename in handles then handles[filename] else |handles|
  }

  class FileServerMock {
    var handles: map<string, Handle>
    var handlesToFilename: seq<string>
    var files: seq<seq<Byte>>

    ghost predicate Valid()
      reads this
    {
      MockTable(handles, handlesToFilename, files)
    }

    /** The contents currently held under each registered name. */
    ghost function Contents(): map<string, seq<Byte>>
      reads this
      requires Valid()
    {
      ContentsOf(handles, files)
    }

    constructor ()
      ensures Valid()
      ensures handles == map[] && handlesToFilename == [] && files == []
      ensures Contents() == map[]
    {
      handles := map[];
      handlesToFilename := [];
      files := [];
    }

    /** What `add` needs not to panic: the next index, converted to a handle
        on every call, must fit 16 bits; and the store into
        `handlesToFilename[h]` must be in range, which it is not when the
        name's handle was allocated by `WriteBytes`. */
    ghost predicate CanAdd(filename: string)
      reads this
    {
      |handles| <= HandleMax &&
      (if filename in handles then handles[filename] < |handlesToFilename|
       else |handlesToFilename| == |files|)
    }

    /** `add`: register `filename` with `contents`, keeping its handle if it
        has one and otherwise taking the next one. */
    method Add(filename: string, contents: seq<Byte>)
      requires Valid() && CanAdd(filename)
      modifies this
      ensures Valid()
      ensures filename in old(handles) ==>
        handles == old(handles) && handlesToFilename == old(handlesToFilename) &&
        files == old(files)[handles[filename] := contents]
      ensures filename !in old(handles) ==>
        handles == old(handles)[filename := old(|handles|)] &&
        handlesToFilename == old(handlesToFilename) + [filename] &&
        files == old(files) + [contents]
      ensures Contents() == old(Contents())[filename := contents]
    {
      var nextIndex := |handles|;
      if filename !in handles {
        handles := handles[filename := nextIndex];
        assert |handles| == |old(handles)| + 1;
      }
      var handle := handles[filename];

      // a known name already has a slot; a new one needs exactly one more
      while handle >= |files|
        invariant handles == old(handles)[filename := handle]
        invariant |handles| == if filename in old(handles) then |old(handles)| else |old(handles)| + 1
        invariant filename in old(handles) ==>
          handle < |old(files)| && files == old(files) && handlesToFilename == old(handlesToFilename)
        invariant filename !in old(handles) ==>
          handle == |old(files)| &&
          ((files == old(files) && handlesToFilename == old(handlesToFilename)) ||
           (files == old(files) + [[]] && handlesToFilename == old(handlesToFilename) + [""]))
        decreases handle - |files|
      {
        handlesToFilename := handlesToFilename + [""];
        files := files + [[]];
      }

      handlesToFilename := handlesToFilename[handle := filename];
      files := files[handle := contents];

      if filename in old(handles) {
        StoreKnownName(old(handles), old(handlesToFilename), old(files), filename, contents);
        assert handlesToFilename == old(handlesToFilename);
      } else {
        assert files == old(files) + [contents];
        assert handlesToFilename == old(handlesToFilename) + [filename];
        StoreNewName(old(handles), old(handlesToFilename), old(files), filename, contents, true);
      }
    }

    /** `get_handle`: the handle registered for `filename`; fails once the
        table holds `u16::MAX` names, before looking the name up. */
    method GetHandle(report: seq<Message>, span: Option<Span>, filename: string)
      returns (report': seq<Message>, r: Result<Handle>)
      ensures |handles| == HandleMax ==>
        r == Err && report' == ReportError(report, span, ExhaustedHandles)
      ensures |handles| != HandleMax && filename !in handles ==>
        r == Err && report' == ReportError(report, span, FileNotFound(filename))
      ensures |handles| != HandleMax && filename in handles ==>
        r == Ok(handles[filename]) && report' == report
    {
      if |handles| == HandleMax {
        report' := ReportError(report, span, ExhaustedHandles);
        return report', Err;
      }
      if filename !in handles {
        report' := ReportError(report, span, FileNotFound(filename));
        return report', Err;
      }
      report', r := report, Ok(handles[filename]);
    }

    /** `get_filename`: the name `add` registered under `fileHandle`. */
    function GetFilename(fileHandle: Handle): (name: string)
      reads this
      requires Valid() && fileHandle < |handlesToFilename|
      ensures name in handles && handles[name] == fileHandle
    {
      handlesToFilename[fileHandle]
    }

    /** `get_bytes`: the contents last stored under `fileHandle`. */
    function GetBytes(report: seq<Message>, span: Option<Span>, fileHandle: Handle): (r: Result<seq<Byte>>)
      reads this
      requires Valid() && fileHandle < |files|
      ensures r.Ok?
      ensures forall n :: n in handles && handles[n] == fileHandle ==> r.value == Contents()[n]
    {
      Ok(files[fileHandle])
    }

    /** `write_bytes`: store `data` under `filename` like `Add`, but without
        extending `handlesToFilename`. */
    method WriteBytes(report: seq<Message>, span: Option<Span>, filename: string, data: seq<Byte>)
      returns (report': seq<Message>, r: Result<()>)
      requires Valid() && |handles| <= HandleMax
      modifies this
      ensures Valid() && report' == report && r == Ok(())
      ensures handlesToFilename == old(handlesToFilename)
      ensures handles == old(handles)[filename := HandleFor(old(handles), filename)]
      ensures files == if filename in old(handles) then old(files)[handles[filename] := data]
                       else old(files) + [data]
      ensures Contents() == old(Contents())[filename := data]
      // a fresh name has no entry in handlesToFilename, so it can no longer be added
      ensures filename !in old(handles) ==> handles[filename] >= |handlesToFilename| && !CanAdd(filename)
    {
      var newIndex := |handles|;
      if filename !in handles {
        handles := handles[filename := newIndex];
        assert |handles| == |old(handles)| + 1;
      }
      var handle := handles[filename];

      while handle >= |files|
        invariant handles == old(handles)[filename := handle]
        invariant |handles| == if filename in old(handles) then |old(handles)| else |old(handles)| + 1
        invariant handlesToFilename == old(handlesToFilename)
        invariant filename in old(handles) ==> handle < |old(files)| && files == old(files)
        invariant filename !in old(handles) ==>
          handle == |old(files)| && (files == old(files) || files == old(files) + [[]])
        decreases handle - |files|
      {
        files := files + [[]];
      }

      files := files[handle := data];

      if filename in old(handles) {
        StoreKnownName(old(handles), old(handlesToFilename), old(files), filename, data);
      } else {
        assert files == old(files) + [data];
        StoreNewName(old(handles), old(handlesToFilename), old(files), filename, data, false);
      }
      report', r := report, Ok(());
    }
  }

  /** Handles are distinct and lie below the number of names. */
  ghost predicate DenseDistinct(handles: map<string, Handle>)
  {
    (forall n :: n in handles ==> handles[n] < |handles|) &&
    (forall n, m :: n in handles && m in handles && handles[n] == handles[m] ==> n == m)
  }

  /** `names[h]` is the name registered under handle `h`. */
  ghost predicate NamesInverse(handles: map<string, Handle>, names: seq<string>)
  {
    forall h :: 0 <= h < |names| ==> names[h] in handles && handles[names[h]] == h
  }

  /** The mock's table invariant: one contents slot per name, handles dense
      and distinct, and `names` an inverse of `handles` that may lag behind
      `files` (`WriteBytes` does not extend it). */
  ghost predicate MockTable(handles: map<string, Handle>, names: seq<string>, files: seq<seq<Byte>>)
  {
    |handles| <= HandleMax + 1 && |files| == |handles| && |names| <= |files| &&
    DenseDistinct(handles) && NamesInverse(handles, names)
  }

  ghost function ContentsOf(handles: map<string, Handle>, files: seq<seq<Byte>>): map<string, seq<Byte>>
    requires forall n :: n in handles ==> handles[n] < |files|
  {
    map n | n in handles :: files[handles[n]]
  }

  /** Storing at the handle of a registered name keeps the table invariant and
      changes the contents of that name only, since no other name shares its
      handle. */
  lemma StoreKnownName(handles: map<string, Handle>, names: seq<string>, files: seq<seq<Byte>>,
                       filename: string, data: seq<Byte>)
    requires MockTable(handles, names, files) && filename in handles
    ensures MockTable(handles, names, files[handles[filename] := data])
    ensures handles[filename] < |names| ==> names[handles[filename] := filename] == names
    ensures ContentsOf(handles, files[handles[filename] := data])
         == ContentsOf(handles, files)[filename := data]
  {
    var files' := files[handles[filename] := data];
    forall n | n in handles
      ensures ContentsOf(handles, files')[n] == ContentsOf(handles, files)[filename := data][n]
    {
      if n != filename {
        assert handles[n] != handles[filename];
      }
    }
  }

  /** Giving a new name the next handle keeps handles dense and distinct. */
  lemma NextHandleDenseDistinct(handles: map<string, Handle>, filename: string)
    requires DenseDistinct(handles) && filename !in handles && |handles| <= HandleMax
    ensures |handles[filename := |handles|]| == |handles| + 1
    ensures DenseDistinct(handles[filename := |handles|])
  {
    var handles' := handles[filename := |handles|];
    assert |handles'| == |handles| + 1;
    forall n, m | n in handles' && m in handles' && handles'[n] == handles'[m]
      ensures n == m
    {
      if n != filename && m != filename {
        assert handles[n] == handles[m];
      }
    }
  }

  /** The names already listed keep their handles when a new name is given the
      next handle, which may also be listed after them. */
  lemma NextHandleNamesInverse(handles: map<string, Handle>, names: seq<string>, filename: string, extendNames: bool)
    requires NamesInverse(handles, names) && filename !in handles && |handles| <= HandleMax
    requires extendNames ==> |names| == |handles|
    ensures NamesInverse(handles[filename := |handles|], if extendNames then names + [filename] else names)
  {
    var handles' := handles[filename := |handles|];
    var names' := if extendNames then names + [filename] else names;
    forall h | 0 <= h < |names'|
      ensures names'[h] in handles' && handles'[names'[h]] == h
    {
      if h < |names| {
        assert names'[h] == names[h] && names[h] != filename;
      }
    }
  }

  /** A new name's contents sit in the slot appended for it. */
  lemma NextHandleContents(handles: map<string, Handle>, files: seq<seq<Byte>>, filename: string, data: seq<Byte>)
    requires filename !in handles && |files| == |handles| && |handles| <= HandleMax
    requires forall n :: n in handles ==> handles[n] < |files|
    ensures ContentsOf(handles[filename := |handles|], files + [data]) == ContentsOf(handles, files)[filename := data]
  {
    var handles' := handles[filename := |handles|];
    forall n | n in handles'
      ensures ContentsOf(handles', files + [data])[n] == ContentsOf(handles, files)[filename := data][n]
    {
    }
  }

  /** Giving a new name the next handle and a new slot keeps the table
      invariant, whether or not the name is also appended to `names`. */
  lemma StoreNewName(handles: map<string, Handle>, names: seq<string>, files: seq<seq<Byte>>,
                     filename: string, data: seq<Byte>, extendNames: bool)
    requires MockTable(handles, names, files) && filename !in handles && |handles| <= HandleMax
    requires extendNames ==> |names| == |files|
    ensures var handles' := handles[filename := |handles|];
      MockTable(handles', if extendNames then names + [filename] else names, files + [data]) &&
      ContentsOf(handles', files + [data]) == ContentsOf(handles, files)[filename := data]
  {
    NextHandleDenseDistinct(handles, filename);
    NextHandleNamesInverse(handles, names, filename, extendNames);
    NextHandleContents(handles, files, filename, data);
  }

  class FileServerReal {
    var handles: map<string, Handle>
    var handlesToFilename: seq<string>

    /** `handlesToFilename` lists the registered names in handle order, so
        handles are exactly 0 .. count-1 and never reach `u16::MAX`. */
    ghost predicate Valid()
      reads this
    {
      |handles| == |handlesToFilename| && |handles| <= HandleMax &&
      (forall n :: n in handles ==> handles[n] < |handlesToFilename| && handlesToFilename[handles[n]] == n) &&
      (forall h :: 0 <= h < |handlesToFilename| ==>
         handlesToFilename[h] in handles && handles[handlesToFilename[h]] == h)
    }

    constructor ()
      ensures Valid() && handles == map[] && handlesToFilename == []
    {
      handles := map[];
      handlesToFilename := [];
    }

    /** `get_handle`: fails for a file that does not exist on disk (`fileExists`
        stands for that check) and when `u16::MAX` handles are in use;
        otherwise the name's handle, allocating the next one on first sight. */
    method GetHandle(report: seq<Message>, span: Option<Span>, filename: string, fileExists: bool)
      returns (report': seq<Message>, r: Result<Handle>)
      requires Valid()
      modifies this
      ensures Valid()
      ensures !fileExists ==>
        r == Err && report' == ReportError(report, span, FileNotFound(filename)) && unchanged(this)
      ensures fileExists && old(|handles|) == HandleMax ==>
        r == Err && report' == ReportError(report, span, ExhaustedHandles) && unchanged(this)
      ensures fileExists && old(|handles|) < HandleMax && filename in old(handles) ==>
        r == Ok(old(handles)[filename]) && report' == report && unchanged(this)
      ensures fileExists && old(|handles|) < HandleMax && filename !in old(handles) ==>
        r == Ok(old(|handles|)) && report' == report &&
        handles == old(handles)[filename := old(|handles|)] &&
        handlesToFilename == old(handlesToFilename) + [filename]
    {
      if !fileExists {
        report' := ReportError(report, span, FileNotFound(filename));
        return report', Err;
      }
      if |handles| == HandleMax {
        report' := ReportError(report, span, ExhaustedHandles);
        return report', Err;
      }
      report' := report;
      if filename in handles {
        return report', Ok(handles[filename]);
      }
      var handle := |handles|;
      handles := handles[filename := handle];
      handlesToFilename := handlesToFilename + [filename];
      r := Ok(handle);
    }

    /** `get_filename`: the name that was given `fileHandle`. */
    function GetFilename(fileHandle: Handle): (name: string)
      reads this
      requires Valid() && fileHandle < |handlesToFilename|
      ensures name in handles && handles[name] == fileHandle
    {
      handlesToFilename[fileHandle]
    }
  }

  /** Registering "a", "b", "a" in memory gives them handles 0, 1 and 0. */
  method MockHandleOrder() returns (a: Result<Handle>, b: Result<Handle>, a2: Result<Handle>)
    ensures a == Ok(0) && b == Ok(1) && a2 == Ok(0)
  {
    var fs := new FileServerMock();
    fs.Add("a", []);
    fs.Add("b", []);
    fs.Add("a", []);
    var report: seq<Message> := [];
    report, a := fs.GetHandle(report, None, "a");
    report, b := fs.GetHandle(report, None, "b");
    report, a2 := fs.GetHandle(report, None, "a");
  }

  /** Asking for existing files "a", "b", "a" on disk gives handles 0, 1, 0. */
  method RealHandleOrder() returns (a: Result<Handle>, b: Result<Handle>, a2: Result<Handle>)
    ensures a == Ok(0) && b == Ok(1) && a2 == Ok(0)
  {
    var fs := new FileServerReal();
    var report: seq<Message> := [];
    report, a := fs.GetHandle(report, None, "a", true);
    report, b := fs.GetHandle(report, None, "b", true);
    report, a2 := fs.GetHandle(report, None, "a", true);
  }
}
