/** The two upload handlers, `create_data_source` and `create_notebook`.
    Both filter the uploaded file by its extension with Python's `in` on
    strings, which is a substring test; an accepted notebook upload is cut
    into lines with `split('\n')`. The extension arrives already separated
    from the file name (path splitting is not part of this model), and the
    store call is returned as a value instead of being made. */
module Uploads {
  import opened PyStrings

  const DataExtension: string := ".json"
  const NotebookExtension: string := ".py"
  const Unsupported: string := "File extension not supported."

  /** The `upload` form field: absent, or a file with its extension and its
      content. */
  datatype FileField = NoFile | File(ext: string, content: string)

  /** The store call an upload leads to. */
  datatype StoreCall =
    | CreateObject(content: string)
    | CreateNotebook(initCode: seq<string>)

  /** What a handler does: make one store call, answer with a message and
      make none, or raise before reaching the store. */
  datatype Response =
    | Stored(call: StoreCall)
    | Refused(body: string)
    | Raised(exception: string)

  /** `ext not in allowed` is false. */
  predicate Accepts(allowed: string, ext: string)
  {
    IsSubstring(ext, allowed)
  }

  /** Uploading a data object. Without a file the handler fails on reading
      the file name; a file whose extension is not part of `.json` is
      refused with a message; otherwise its content is stored as is. */
  function CreateDataSource(upload: FileField): (r: Response)
    ensures upload.NoFile? ==> r.Raised?
    ensures upload.File? ==> (r.Stored? <==> exists i :: OccursAt(upload.ext, DataExtension, i))
    ensures r.Stored? ==> r.call == CreateObject(upload.content)
    ensures r.Refused? ==> r.body == Unsupported
  {
    match upload
    case NoFile => Raised("AttributeError")
    case File(ext, content) =>
      IsSubstringIff(ext, DataExtension);
      if !Accepts(DataExtension, ext) then Refused(Unsupported)
      else Stored(CreateObject(content))
  }

  /** Creating a notebook. Without a file it starts with no code; a file
      whose extension is not part of `.py` is refused with a message and no
      notebook is created; otherwise the file's lines become the initial
      code: no line holds a newline, there is one line more than the file
      has newlines, and joining the lines with newlines gives the file back. */
  function CreateNotebookFrom(upload: FileField): (r: Response)
    ensures r.Refused? || r.Stored?
    ensures r.Stored? ==> r.call.CreateNotebook?
    ensures upload.NoFile? ==> r == Stored(CreateNotebook([]))
    ensures upload.File? ==> (r.Stored? <==> exists i :: OccursAt(upload.ext, NotebookExtension, i))
    ensures upload.File? && r.Stored? ==>
      && SeparatorFree(r.call.initCode)
      && |r.call.initCode| == Count(upload.content, Newline) + 1
      && Join(r.call.initCode) == upload.content
    ensures r.Refused? ==> r.body == Unsupported
  {
    match upload
    case NoFile => Stored(CreateNotebook([]))
    case File(ext, content) =>
      IsSubstringIff(ext, NotebookExtension);
      if !Accepts(NotebookExtension, ext) then Refused(Unsupported)
      else
        SplitPiecesSeparatorFree(content);
        JoinSplit(content);
        Stored(CreateNotebook(Split(content)))
  }

  /** For an extension as path splitting produces it (empty, or starting
      with the dot), the test accepts exactly the leading parts of the
      allowed extension, not only the allowed extension itself. */
  lemma {:induction false} DottedExtensionAccepted(allowed: string, ext: string)
    requires |allowed| > 0 && allowed[0] == '.'
    requires forall k :: 1 <= k < |allowed| ==> allowed[k] != '.'
    requires ext == "" || ext[0] == '.'
    ensures Accepts(allowed, ext) <==> IsPrefix(ext, allowed)
  {
    IsSubstringIff(ext, allowed);
    if Accepts(allowed, ext) && ext != "" {
      var i :| OccursAt(ext, allowed, i);
      assert allowed[i] == ext[0];
      assert i == 0;
    }
    if IsPrefix(ext, allowed) {
      assert OccursAt(ext, allowed, 0);
    }
  }

  /** The data filter lets through `.json` and every leading part of it,
      including the empty extension of a file with no extension. */
  lemma DataExtensionsAccepted(ext: string)
    requires ext == "" || ext[0] == '.'
    ensures Accepts(DataExtension, ext) <==> ext in {"", ".", ".j", ".js", ".jso", ".json"}
  {
    DottedExtensionAccepted(DataExtension, ext);
    if IsPrefix(ext, DataExtension) {
      assert ext == DataExtension[..|ext|];
      assert |ext| <= 5;
      if |ext| == 0 { assert ext == ""; }
      else if |ext| == 1 { assert ext == "."; }
      else if |ext| == 2 { assert ext == ".j"; }
      else if |ext| == 3 { assert ext == ".js"; }
      else if |ext| == 4 { assert ext == ".jso"; }
      else { assert ext == ".json"; }
    }
  }

  /** The notebook filter lets through `.py`, `.p`, `.` and the empty
      extension. */
  lemma NotebookExtensionsAccepted(ext: string)
    requires ext == "" || ext[0] == '.'
    ensures Accepts(NotebookExtension, ext) <==> ext in {"", ".", ".p", ".py"}
  {
    DottedExtensionAccepted(NotebookExtension, ext);
    if IsPrefix(ext, NotebookExtension) {
      assert ext == NotebookExtension[..|ext|];
      if |ext| == 0 { assert ext == ""; }
      else if |ext| == 1 { assert ext == "."; }
      else if |ext| == 2 { assert ext == ".p"; }
      else { assert ext == ".py"; }
    }
  }
}
