/**
  One connection's request (`handle_client`) as a pure function. The socket read
  becomes the bytes the client sent, and `realpath`, `open` and `fstat` become a
  filesystem snapshot passed in. The result is the response the server chooses,
  together with the filesystem calls it makes, in order, so that "the file is
  opened only after the containment check" can be stated.
*/
module Handler {
  import opened CString
  import UrlDecode
  import Mime
  import opened Request
  import opened Http

  /** Size of the request buffer; one read fills at most `MaxBuffer - 1` bytes of it. */
  const MaxBuffer: nat := 1024

  /** The only method served. */
  const Get: string := "GET"

  /** A file size as `fstat` reports it in an `off_t`. */
  type FileSize = n: nat | n < OffTLimit

  /** What `fstat` says about an open file. */
  datatype Inode = Regular(size: FileSize) | NotRegular | StatFails

  /**
    The filesystem as the handler sees it. `canonical` is `realpath`: a path it
    does not hold fails to resolve. `files` is `open` followed by `fstat`: a
    canonical path it does not hold cannot be opened.
  */
  datatype FileSystem = FileSystem(canonical: map<string, string>, files: map<string, Inode>)

  datatype FsCall = RealPathCall(path: string) | OpenCall(path: string) | FstatCall(path: string)

  /** What the client gets: nothing at all, an error header, or the 200 header. */
  datatype Response =
    | Closed
    | Error(status: Status)
    | Ok(contentLength: FileSize, contentType: string)

  datatype Outcome = Outcome(response: Response, calls: seq<FsCall>)

  /**
    The bytes written before the body: nothing for a closed connection, an error
    header that declares an empty body, or the 200 status line and headers.
  */
  function Wire(r: Response): (w: string)
    ensures w == [] <==> r.Closed?
    ensures r.Error? ==> |w| >= |EmptyBody| && w[|w| - |EmptyBody|..] == EmptyBody
    ensures r.Error? ==> w[|StatusPrefix|..|StatusPrefix| + 3] == Decimal(Code(r.status))
    ensures r.Ok? ==> |w| > |OkStatus| && w[..|OkStatus|] == OkStatus
  {
    match r
    case Closed => ""
    case Error(s) => ErrorText(s)
    case Ok(size, t) => OkHeader(size, t)
  }

  /** What one `read` of at most `MaxBuffer - 1` bytes leaves in the buffer, as a C string. */
  function RequestText(received: string): (text: string)
    ensures |text| <= MaxBuffer - 1
    ensures text <= received && NUL !in text
    ensures |received| < MaxBuffer - 1 && NUL !in received ==> text == received
    ensures |text| == MaxBuffer - 1 || text == received || received[|text|] == NUL
  {
    CStr(received[..if |received| < MaxBuffer - 1 then |received| else MaxBuffer - 1])
  }

  /** The path with its query removed: everything before the first '?'. */
  function CutQuery(path: string): (r: string)
    ensures '?' !in r
    ensures r <= path
    ensures r == path || path[|r|] == '?'
  {
    var q := IndexOf(path, '?');
    if q < 0 then path else path[..q]
  }

  /** At most one leading '/' is dropped. */
  function StripSlash(p: string): (r: string)
    ensures |p| > 0 && p[0] == '/' ==> "/" + r == p
    ensures (|p| == 0 || p[0] != '/') ==> r == p
  {
    if |p| > 0 && p[0] == '/' then p[1..] else p
  }

  /**
    The file name the request asks for: query cut, one leading '/' dropped,
    percent-decoded, and then read as a C string, so a decoded NUL ends it.
  */
  function RequestedName(path: string): (name: string)
    ensures NUL !in name
    ensures |name| <= |path|
  {
    UrlDecode.DecodeStopsAtNul(StripSlash(CutQuery(path)));
    CStr(UrlDecode.Decode(StripSlash(CutQuery(path))))
  }

  /** The candidate path `snprintf("%s/%s", root_dir, filename)` builds. */
  function JoinPath(root: string, name: string): (path: string)
    ensures |path| == |root| + 1 + |name|
    ensures path[..|root|] == root && path[|root|] == '/' && path[|root| + 1..] == name
  {
    root + "/" + name
  }

  /**
    The containment test `strncmp(real_path, root_dir, strlen(root_dir)) == 0`:
    the root, exactly as configured, is a string prefix of the canonical path.
  */
  predicate Contained(root: string, realPath: string): (b: bool)
    ensures b <==> |root| <= |realPath| && forall i :: 0 <= i < |root| ==> realPath[i] == root[i]
  {
    root <= realPath
  }

  /** The answer for a regular file: 200, or 500 when its header does not fit the buffer. */
  function Success(size: FileSize, contentType: string): (r: Response)
    ensures r == Ok(size, contentType) <==> |OkHeader(size, contentType)| < HeaderBufferSize
    ensures r != Ok(size, contentType) ==> r == Error(InternalServerError)
  {
    if |OkHeader(size, contentType)| >= HeaderBufferSize then Error(InternalServerError)
    else Ok(size, contentType)
  }

  /** A type of at most 24 characters always gets the 200. */
  lemma SuccessIsOk(size: FileSize, contentType: string)
    requires |contentType| <= 24
    ensures Success(size, contentType) == Ok(size, contentType)
  {
    OkHeaderFits(size, contentType);
  }

  /** Every type `get_mime_type` returns has at most 24 characters. */
  lemma KnownTypesShort(name: string)
    ensures |Mime.TypeOf(name)| <= 24
  {
  }

  /** Resolve, check, open and stat the requested name, then choose the header. */
  function Resolve(root: string, name: string, fs: FileSystem): (o: Outcome)
    ensures |o.calls| > 0 && o.calls[0] == RealPathCall(JoinPath(root, name))
    ensures o.response != Closed
  {
    var candidate := JoinPath(root, name);
    var resolve := RealPathCall(candidate);
    if candidate !in fs.canonical then Outcome(Error(Forbidden), [resolve])
    else
      var realPath := fs.canonical[candidate];
      if !Contained(root, realPath) then Outcome(Error(Forbidden), [resolve])
      else if realPath !in fs.files then Outcome(Error(NotFound), [resolve, OpenCall(realPath)])
      else
        var calls := [resolve, OpenCall(realPath), FstatCall(realPath)];
        match fs.files[realPath]
        case Regular(size) => Outcome(Success(size, Mime.TypeOf(name)), calls)
        case _ => Outcome(Error(Forbidden), calls)
  }

  /**
    Everything after a well-formed request line: the method check, the name,
    the allocation of the candidate path (`pathAllocated` is whether `malloc`
    succeeds), and resolution.
  */
  function Dispatch(line: RequestLine, root: string, fs: FileSystem, pathAllocated: bool): (o: Outcome)
    ensures o.response != Closed
    ensures o.response == Error(MethodNotAllowed) <==> line.methodName != Get
    ensures o.calls == [] <==> line.methodName != Get || |RequestedName(line.path)| == 0 || !pathAllocated
  {
    if line.methodName != Get then Outcome(Error(MethodNotAllowed), [])
    else
      var name := RequestedName(line.path);
      if |name| == 0 then Outcome(Error(BadRequest), [])
      else if !pathAllocated then Outcome(Error(InternalServerError), [])
      else Resolve(root, name, fs)
  }

  /** The answer to a scanned request line: 400 when the scan failed, otherwise dispatch. */
  function Respond(parsed: Option<RequestLine>, root: string, fs: FileSystem, pathAllocated: bool): (o: Outcome)
    ensures o.response != Closed
    ensures parsed.None? ==> o.response == Error(BadRequest) && o.calls == []
    ensures parsed.Some? && parsed.value.methodName == Get && o.response == Error(BadRequest) ==> o.calls == []
  {
    match parsed
    case None => Outcome(Error(BadRequest), [])
    case Some(line) => Dispatch(line, root, fs, pathAllocated)
  }

  /** `handle_client` for a connection on which the client sent `received`. */
  function Handle(received: string, root: string, fs: FileSystem, pathAllocated: bool): (o: Outcome)
    ensures o.response == Closed <==> |received| == 0
  {
    if |received| == 0 then Outcome(Closed, [])
    else Respond(ParseRequestLine(RequestText(received)), root, fs, pathAllocated)
  }

  // ---------------------------------------------------------------------------
  // The order of the checks
  // ---------------------------------------------------------------------------

  /** 405 exactly for a scanned line whose method is not `GET`, decided before the filesystem is asked. */
  lemma MethodChecked(parsed: Option<RequestLine>, root: string, fs: FileSystem, pathAllocated: bool)
    ensures var o := Respond(parsed, root, fs, pathAllocated);
      && (o.response == Error(MethodNotAllowed) <==> parsed.Some? && parsed.value.methodName != Get)
      && (o.response == Error(MethodNotAllowed) ==> o.calls == [])
  {
  }

  /**
    Fewer than three words is 400 before the method is looked at; with three
    words, 405 exactly when the method is not `GET`. Neither touches the filesystem.
  */
  lemma RequestLineChecks(received: string, root: string, fs: FileSystem, pathAllocated: bool)
    requires |received| > 0
    ensures var o := Handle(received, root, fs, pathAllocated);
      var parsed := ParseRequestLine(RequestText(received));
      && (CountWords(RequestText(received)) < 3 ==> o == Outcome(Error(BadRequest), []))
      && (CountWords(RequestText(received)) >= 3 ==> parsed.Some?)
      && (o.response == Error(MethodNotAllowed) <==> parsed.Some? && parsed.value.methodName != Get)
      && (o.response == Error(MethodNotAllowed) ==> o.calls == [])
  {
    var text := RequestText(received);
    ParseFailsIffFewerThanThreeWords(text);
    var parsed := ParseRequestLine(text);
    assert Handle(received, root, fs, pathAllocated) == Respond(parsed, root, fs, pathAllocated);
    MethodChecked(parsed, root, fs, pathAllocated);
  }

  /** Only the path's text before the first '?' matters. */
  lemma QueryIgnored(path: string, query: string)
    requires '?' !in path
    ensures RequestedName(path + "?" + query) == RequestedName(path)
  {
    var full := path + "?" + query;
    assert full[|path|] == '?';
    assert full[..|path|] == path;
    assert IndexOf(full, '?') == |path| by {
      assert '?' !in full[..|path|];
    }
  }

  /**
    Exactly one leading '/' is dropped before decoding: "/p" names what `p`
    decodes to, so "//etc" asks for "/etc".
  */
  lemma OneSlashDropped(p: string)
    requires '?' !in p
    ensures RequestedName("/" + p) == CStr(UrlDecode.Decode(p))
  {
    assert '?' !in "/" + p;
    assert ("/" + p)[1..] == p;
  }

  /** Two GET lines whose paths agree up to the query get the same answer; the version is never read. */
  lemma DispatchIgnoresQueryAndVersion(path: string, query: string, v1: string, v2: string,
                                       root: string, fs: FileSystem, pathAllocated: bool)
    requires '?' !in path
    ensures Dispatch(RequestLine(Get, path + "?" + query, v1), root, fs, pathAllocated)
         == Dispatch(RequestLine(Get, path, v2), root, fs, pathAllocated)
  {
    QueryIgnored(path, query);
  }

  /** An empty name is 400 and the filesystem is never asked. */
  lemma EmptyNameRejected(line: RequestLine, root: string, fs: FileSystem, pathAllocated: bool)
    requires line.methodName == Get && RequestedName(line.path) == []
    ensures Dispatch(line, root, fs, pathAllocated) == Outcome(Error(BadRequest), [])
  {
  }

  /** "/" names nothing, and neither does a name whose first decoded byte is NUL. */
  lemma EmptyNameExamples(rest: string)
    ensures RequestedName("/") == []
    ensures RequestedName("/%00" + rest) == []
  {
    assert StripSlash(CutQuery("/")) == [];
    var p := "/%00" + rest;
    var q := CutQuery(p);
    assert forall i :: 0 <= i < 4 ==> p[i] != '?';
    assert q[..4] == "/%00";
    var s := StripSlash(q);
    assert s[..3] == "%00";
    UrlDecode.DecodeEscapeStep(s, 0);
    assert s[0..] == s;
    assert UrlDecode.Strtol2('0', '0') == 0;
  }

  /**
    Decoding happens before resolution: a path that percent-encodes every byte
    names exactly those bytes (up to the first NUL), so "%2E%2E" reaches
    `realpath` as "..".
  */
  lemma EncodedPathNamesItsBytes(s: string)
    requires forall i :: 0 <= i < |s| ==> IsByte(s[i])
    ensures RequestedName("/" + UrlDecode.Encode(s)) == CStr(s)
  {
    var e := UrlDecode.Encode(s);
    var p := "/" + e;
    assert '?' !in e;
    assert '?' !in p;
    assert CutQuery(p) == p;
    assert p[1..] == e;
    assert StripSlash(p) == e;
    UrlDecode.DecodeEncode(s);
  }

  // ---------------------------------------------------------------------------
  // Resolution and containment
  // ---------------------------------------------------------------------------

  /**
    A candidate that does not resolve, or resolves to a path the root is not a
    string prefix of, is 403, and nothing is opened.
  */
  lemma OutsideRootForbidden(root: string, name: string, fs: FileSystem)
    requires var c := JoinPath(root, name);
      c !in fs.canonical || !Contained(root, fs.canonical[c])
    ensures Resolve(root, name, fs) == Outcome(Error(Forbidden), [RealPathCall(JoinPath(root, name))])
  {
  }

  /** A file is opened only after its canonical path passed the containment test. */
  lemma OpenOnlyInsideRoot(root: string, name: string, fs: FileSystem, p: string)
    requires OpenCall(p) in Resolve(root, name, fs).calls
    ensures JoinPath(root, name) in fs.canonical
    ensures p == fs.canonical[JoinPath(root, name)]
    ensures Contained(root, p)
  {
  }

  /** After the containment test passes: 404 when it cannot be opened, 403 when it is not a regular file. */
  lemma StatusAfterContainment(root: string, name: string, fs: FileSystem)
    requires JoinPath(root, name) in fs.canonical
    requires Contained(root, fs.canonical[JoinPath(root, name)])
    ensures var rp := fs.canonical[JoinPath(root, name)];
      var r := Resolve(root, name, fs).response;
      && (rp !in fs.files <==> r == Error(NotFound))
      && (rp in fs.files && !fs.files[rp].Regular? <==> r == Error(Forbidden))
  {
  }

  /** Resolution succeeds exactly for a regular file found inside the root, with its size and the name's type. */
  lemma ResolveOkExactly(root: string, name: string, fs: FileSystem)
    ensures var r := Resolve(root, name, fs).response;
      var c := JoinPath(root, name);
      r.Ok? <==>
        && c in fs.canonical
        && Contained(root, fs.canonical[c])
        && fs.canonical[c] in fs.files
        && fs.files[fs.canonical[c]].Regular?
    ensures var r := Resolve(root, name, fs).response;
      r.Ok? ==> r == Ok(fs.files[fs.canonical[JoinPath(root, name)]].size, Mime.TypeOf(name))
  {
    var c := JoinPath(root, name);
    if c in fs.canonical && fs.canonical[c] in fs.files && fs.files[fs.canonical[c]].Regular? {
      KnownTypesShort(name);
      SuccessIsOk(fs.files[fs.canonical[c]].size, Mime.TypeOf(name));
    }
  }

  /**
    The full characterisation of success: 200 exactly when the request is a GET
    with a non-empty name whose candidate path resolves inside the root (as a
    string prefix) to a regular file; the length is that file's size and the type
    comes from the requested name, not from the canonical path.
  */
  lemma OkExactly(received: string, root: string, fs: FileSystem, pathAllocated: bool)
    ensures var r := Handle(received, root, fs, pathAllocated).response;
      var parsed := ParseRequestLine(RequestText(received));
      r.Ok? <==>
        && |received| > 0
        && parsed.Some?
        && parsed.value.methodName == Get
        && pathAllocated
        && var name := RequestedName(parsed.value.path);
           var c := JoinPath(root, name);
           && |name| > 0
           && c in fs.canonical
           && Contained(root, fs.canonical[c])
           && fs.canonical[c] in fs.files
           && fs.files[fs.canonical[c]].Regular?
    ensures var r := Handle(received, root, fs, pathAllocated).response;
      r.Ok? ==>
        var name := RequestedName(ParseRequestLine(RequestText(received)).value.path);
        var rp := fs.canonical[JoinPath(root, name)];
        r == Ok(fs.files[rp].size, Mime.TypeOf(name))
  {
    if |received| > 0 {
      var parsed := ParseRequestLine(RequestText(received));
      assert Handle(received, root, fs, pathAllocated) == Respond(parsed, root, fs, pathAllocated);
      if parsed.Some? && parsed.value.methodName == Get {
        var name := RequestedName(parsed.value.path);
        if |name| > 0 && pathAllocated {
          ResolveOkExactly(root, name, fs);
        }
      }
    }
  }

  /** Resolution never answers 500: every header it formats fits the buffer. */
  lemma ResolveNeverOverflows(root: string, name: string, fs: FileSystem)
    ensures Resolve(root, name, fs).response != Error(InternalServerError)
  {
    var c := JoinPath(root, name);
    if c in fs.canonical && fs.canonical[c] in fs.files && fs.files[fs.canonical[c]].Regular? {
      KnownTypesShort(name);
      SuccessIsOk(fs.files[fs.canonical[c]].size, Mime.TypeOf(name));
    }
  }

  /** After the method check, 500 only ever comes from a failed allocation. */
  lemma DispatchInternalError(line: RequestLine, root: string, fs: FileSystem, pathAllocated: bool)
    ensures Dispatch(line, root, fs, pathAllocated).response == Error(InternalServerError) ==> !pathAllocated
  {
    var name := RequestedName(line.path);
    if line.methodName == Get && |name| > 0 && pathAllocated {
      ResolveNeverOverflows(root, name, fs);
    }
  }

  /** The 500 answer only ever comes from a failed allocation. */
  lemma InternalErrorOnlyFromAllocation(received: string, root: string, fs: FileSystem, pathAllocated: bool)
    ensures Handle(received, root, fs, pathAllocated).response == Error(InternalServerError) ==> !pathAllocated
  {
    if |received| > 0 {
      var parsed := ParseRequestLine(RequestText(received));
      assert Handle(received, root, fs, pathAllocated) == Respond(parsed, root, fs, pathAllocated);
      if parsed.Some? {
        DispatchInternalError(parsed.value, root, fs, pathAllocated);
      }
    }
  }

  /**
    The containment test is a string prefix test: a sibling directory whose name
    extends the root's passes it.
  */
  lemma SiblingDirectoryPasses()
    ensures Contained("/srv/www", "/srv/www2/secret")
  {
  }

  /**
    With a relative root (such as the default "."), the configured text can never
    prefix an absolute canonical path, so nothing is ever served.
  */
  lemma RelativeRootServesNothing(received: string, root: string, fs: FileSystem, pathAllocated: bool)
    requires |root| > 0 && root[0] != '/'
    requires forall p :: p in fs.canonical ==> |fs.canonical[p]| > 0 && fs.canonical[p][0] == '/'
    ensures !Handle(received, root, fs, pathAllocated).response.Ok?
  {
    OkExactly(received, root, fs, pathAllocated);
  }
}
