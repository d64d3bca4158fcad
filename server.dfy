/** The static file server's request handler (lib/server.py `build_handler`): the decision
    `do_GET` takes for a request path over a fixed file tree, and the responses it writes on
    one connection, including `_send_file`'s failure path and the disabled directory
    listing. */
module Server {
  import opened Strings
  import opened Paths

  /** What lies at a resolved path: a file's bytes, or a directory with the size `stat`
      reports for it. */
  datatype Node = File(content: seq<bv8>) | Dir(statSize: nat)

  /** The filesystem, by resolved path.  It is not changed while serving. */
  type Tree = map<seq<string>, Node>

  const JsonType := "application/json; charset=utf-8"
  const OctetStream := "application/octet-stream"
  const CacheControl := "public, max-age=3600"
  const ManifestName := "data.json"

  /** The decision `do_GET` takes: send a file with a content type, send an error status, or
      raise before answering at all. */
  datatype Response = Serve(path: seq<string>, ctype: string) | Refuse(code: nat) | Raised

  /** The guessed type of the target, or `application/octet-stream` when there is none
      (an empty guess counts as none). */
  function ContentType(guess: string -> Option<string>, target: seq<string>): string {
    match guess(Render(target))
    case Some(t) => if t != [] then t else OctetStream
    case None => OctetStream
  }

  /** The resolved target of a request path other than the manifest's. */
  function Target(root: seq<string>, path: string): (t: seq<string>)
    requires IsNames(root)
    ensures IsNames(t)
  {
    Resolve(Join(Render(root), Unquote(LStripSlashes(path))))
  }

  /** Whether `resolve()` raises on the joined path: the decoded path holds a NUL character,
      which the `lstat` of its part rejects with `ValueError`, an error `resolve()` does not
      catch.  The handler sends nothing, and the connection ends. */
  predicate ResolveRaises(path: string) {
    '\0' in Unquote(LStripSlashes(path))
  }

  /** `do_GET` on a handler built for the resolved `root`, whose manifest is
      `root/data.json`. */
  function Route(root: seq<string>, tree: Tree, guess: string -> Option<string>, path: string): (r: Response)
    requires IsNames(root)
    ensures path == "" || path == "/" ==> r == Serve(root + [ManifestName], JsonType)
    ensures r.Raised? <==> path != "" && path != "/" && ResolveRaises(path)
    ensures r.Refuse? ==> r.code == 404
  {
    if path == "" || path == "/" then Serve(root + [ManifestName], JsonType)
    else if ResolveRaises(path) then Raised
    else Decide(root, tree, guess, Target(root, path))
  }

  /** What `do_GET` does with the resolved target of a request path: the containment test,
      then the directory, file and missing cases. */
  function Decide(root: seq<string>, tree: Tree, guess: string -> Option<string>, target: seq<string>): (r: Response)
    requires IsNames(root)
    ensures !r.Raised?
    ensures r.Refuse? ==> r.code == 404
    ensures r.Serve? ==> r.path in tree
  {
    if !StartsWith(Render(target), Render(Resolve(Render(root))) + "/") then Refuse(404)
    else if target in tree && tree[target].Dir? then
      if target + [ManifestName] in tree then Serve(target + [ManifestName], JsonType)
      else Refuse(404)
    else if target in tree then Serve(target, ContentType(guess, target))
    else Refuse(404)
  }

  // ---------------------------------------------------------------- containment

  /** The containment test of `do_GET` accepts exactly the targets strictly inside the root. */
  lemma ContainmentTest(root: seq<string>, t: seq<string>)
    requires IsNames(root) && IsNames(t)
    ensures StartsWith(Render(t), Render(Resolve(Render(root))) + "/") <==> Under(root, t)
  {
    ResolveRendered(root);
    ContainedIffUnder(root, t);
  }

  /** Whatever the request, a file is served only from strictly inside the root, and only
      one that exists. */
  lemma RouteStaysInside(root: seq<string>, tree: Tree, guess: string -> Option<string>, path: string)
    requires IsNames(root)
    ensures Route(root, tree, guess, path).Serve? && path != "" && path != "/" ==>
      Under(root, Route(root, tree, guess, path).path) && Route(root, tree, guess, path).path in tree
  {
    if path != "" && path != "/" {
      DecideStaysInside(root, tree, guess, Target(root, path));
    }
  }

  lemma DecideStaysInside(root: seq<string>, tree: Tree, guess: string -> Option<string>, t: seq<string>)
    requires IsNames(root) && IsNames(t)
    ensures var r := Decide(root, tree, guess, t);
      r.Serve? ==> Under(root, r.path) && r.path in tree
  {
    ContainmentTest(root, t);
    if Under(root, t) {
      assert (t + [ManifestName])[..|root|] == t[..|root|];
    }
  }

  /** A target outside the root, the root itself included, gets 404. */
  lemma RouteOutside(root: seq<string>, tree: Tree, guess: string -> Option<string>, path: string)
    requires IsNames(root) && path != "" && path != "/" && !Under(root, Target(root, path))
    ensures Route(root, tree, guess, path) == if ResolveRaises(path) then Raised else Refuse(404)
  {
    ContainmentTest(root, Target(root, path));
  }

  /** A directory inside the root is answered with its `data.json` if it has one, and with
      404 otherwise: never with a listing. */
  lemma RouteDirectory(root: seq<string>, tree: Tree, guess: string -> Option<string>, path: string)
    requires IsNames(root) && path != "" && path != "/"
    requires Under(root, Target(root, path)) && Target(root, path) in tree
    requires tree[Target(root, path)].Dir?
    ensures var index := Target(root, path) + [ManifestName];
      Route(root, tree, guess, path) ==
        if ResolveRaises(path) then Raised
        else if index in tree then Serve(index, JsonType) else Refuse(404)
  {
    ContainmentTest(root, Target(root, path));
  }

  /** A file inside the root is served with its guessed type, `application/octet-stream`
      when there is none. */
  lemma RouteFile(root: seq<string>, tree: Tree, guess: string -> Option<string>, path: string)
    requires IsNames(root) && path != "" && path != "/"
    requires Under(root, Target(root, path)) && Target(root, path) in tree
    requires tree[Target(root, path)].File?
    ensures ResolveRaises(path) ==> Route(root, tree, guess, path) == Raised
    ensures var t := Target(root, path); !ResolveRaises(path) ==>
      && Route(root, tree, guess, path) == Serve(t, ContentType(guess, t))
      && (guess(Render(t)).Some? && guess(Render(t)).value != [] ==> Route(root, tree, guess, path).ctype == guess(Render(t)).value)
      && (guess(Render(t)).None? ==> Route(root, tree, guess, path).ctype == OctetStream)
  {
    ContainmentTest(root, Target(root, path));
  }

  /** A missing target inside the root gets 404. */
  lemma RouteMissing(root: seq<string>, tree: Tree, guess: string -> Option<string>, path: string)
    requires IsNames(root) && path != "" && path != "/"
    requires Under(root, Target(root, path)) && Target(root, path) !in tree
    ensures Route(root, tree, guess, path) == if ResolveRaises(path) then Raised else Refuse(404)
  {
    ContainmentTest(root, Target(root, path));
  }

  // ---------------------------------------------------------------- particular requests

  /** A `self.path` of two or more slashes: every slash is stripped, the target is the root
      itself, and that is refused, although `/` serves the manifest. */
  lemma SlashesOnlyRefused(root: seq<string>, tree: Tree, guess: string -> Option<string>, path: string)
    requires IsNames(root) && |path| >= 2 && forall i :: 0 <= i < |path| ==> path[i] == '/'
    ensures Route(root, tree, guess, path) == Refuse(404)
  {
    assert path != "" && path != "/" by {
      assert path[1] == '/';
    }
    assert LStripSlashes(path) == [];
    assert Unquote([]) == [];
    ResolveJoin(root, []);
    SplitOnLast([], '/');
    assert SplitOn([], '/') == [""];
    assert NormalizeFrom(root, [""]) == root by {
      assert [""][1..] == [];
    }
    assert !ResolveRaises(path);
    RouteOutside(root, tree, guess, path);
  }

  /** Served from the filesystem root, the handler refuses everything but the manifest. */
  lemma FilesystemRootRefusesAll(tree: Tree, guess: string -> Option<string>, path: string)
    requires path != "" && path != "/"
    ensures Route([], tree, guess, path) == if ResolveRaises(path) then Raised else Refuse(404)
  {
    RouteOutside([], tree, guess, path);
  }

  /** A request whose path decodes to a NUL character, `/%00...`, gets no answer: `resolve()`
      raises before any response is chosen. */
  lemma NulByteGetsNoAnswer(root: seq<string>, tree: Tree, guess: string -> Option<string>, rest: string)
    requires IsNames(root)
    ensures Route(root, tree, guess, "/%00" + rest) == Raised
  {
    var path := "/%00" + rest;
    assert path[1] == '%';
    assert path == "/" + ("%00" + rest);
    StripOneSlash("%00" + rest);
    var u := Unquote("%00" + rest);
    assert u[0] == ByteChar(0) == '\0';
  }

  /** Decoding happens after stripping, so an escaped leading slash survives and makes the
      joined path absolute: the root no longer takes part in the target. */
  lemma EncodedSlashIsAbsolute(root: seq<string>, rest: string)
    requires IsNames(root)
    ensures Target(root, "/%2F" + rest) == Resolve("/" + Unquote(rest))
  {
    assert "/%2F" + rest == "/" + ("%2F" + rest);
    StripOneSlash("%2F" + rest);
    UnquoteEncodedSlash(rest);
    var rel := "/" + Unquote(rest);
    assert rel[0] == '/';
  }

  lemma StripOneSlash(s: string)
    requires s != [] && s[0] != '/'
    ensures LStripSlashes("/" + s) == s
  {
    assert ("/" + s)[1..] == s;
  }

  /** A request without `%` and without `..` among its parts resolves at or below the root. */
  lemma PlainRequestStaysBelow(root: seq<string>, path: string)
    requires IsNames(root) && '%' !in path
    requires forall i :: 0 <= i < |SplitOn(LStripSlashes(path), '/')| ==> SplitOn(LStripSlashes(path), '/')[i] != ".."
    ensures |root| <= |Target(root, path)| && Target(root, path)[..|root|] == root
  {
    var rel := LStripSlashes(path);
    assert '%' !in rel by {
      forall i | 0 <= i < |rel| ensures rel[i] != '%' {
        assert rel[i] == path[|path| - |rel| + i];
      }
    }
    UnquotePlain(rel);
    ResolveJoin(root, rel);
    NoParentStaysBelow(root, SplitOn(rel, '/'));
  }

  // ---------------------------------------------------------------- writing responses

  /** What goes out on the connection: a status line, a header, the end of the headers, body
      bytes, or a complete error response from `send_error`. */
  datatype Event =
    | Status(code: nat)
    | HeaderLine(name: string, value: string)
    | EndHeaders
    | Body(bytes: seq<bv8>)
    | ErrorPage(code: nat)

  /** What the handler writes to its log: the failure `_send_file` reports, the message
      `send_error` logs, and the access line `send_response` logs for every status it sends. */
  datatype LogEntry = SendFailed(path: seq<string>) | ErrorSent(code: nat) | Access(code: nat)

  /** How the client side behaves while a body is copied: it takes everything, or it takes
      `accepted` bytes and then the write fails, leaving the stream closed or not. */
  datatype Network = Delivered | Broken(accepted: nat, closes: bool)

  /** What a call writes and logs, and whether the stream is closed afterwards. */
  datatype Sent = Sent(events: seq<Event>, logged: seq<LogEntry>, closed: bool)

  function Lookup(tree: Tree, p: seq<string>): Option<Node> {
    if p in tree then Some(tree[p]) else None
  }

  /** The status line and the three headers of a successful send, then the end of the
      headers. */
  function Headers(ctype: string, size: nat): seq<Event> {
    [Status(200), HeaderLine("Content-Type", ctype), HeaderLine("Content-Length", DecimalString(size)),
     HeaderLine("Cache-Control", CacheControl), EndHeaders]
  }

  /** `send_error(code)`: an error response, its message in the log, then its access line. */
  function ErrorSpec(code: nat): Sent {
    Sent([ErrorPage(code)], [ErrorSent(code), Access(code)], false)
  }

  /** Whether `_send_file` raises: the file is missing, is a directory, or the client breaks
      off before all its bytes are copied. */
  predicate SendFails(node: Option<Node>, net: Network) {
    match node
    case None => true
    case Some(Dir(_)) => true
    case Some(File(c)) => net.Broken? && net.accepted < |c|
  }

  /** `_send_file(path, ctype)` on an open stream: a missing file fails at `stat`, a
      directory after the headers when it is opened, a file while its bytes are copied when
      the client breaks off early.  A failure is logged, and answered with 500 unless the
      stream is closed by then. */
  function SendFileSpec(node: Option<Node>, path: seq<string>, ctype: string, net: Network): Sent {
    match node
    case None => Sent([ErrorPage(500)], [SendFailed(path), ErrorSent(500), Access(500)], false)
    case Some(Dir(size)) =>
      Sent(Headers(ctype, size) + [ErrorPage(500)], [Access(200), SendFailed(path), ErrorSent(500), Access(500)], false)
    case Some(File(c)) =>
      if net.Broken? && net.accepted < |c| then
        if net.closes then Sent(Headers(ctype, |c|) + [Body(c[..net.accepted])], [Access(200), SendFailed(path)], true)
        else Sent(Headers(ctype, |c|) + [Body(c[..net.accepted]), ErrorPage(500)],
                  [Access(200), SendFailed(path), ErrorSent(500), Access(500)], false)
      else Sent(Headers(ctype, |c|) + [Body(c)], [Access(200)], false)
  }

  /** Everything `do_GET` writes for one decision; after an exception nothing is written, and
      the connection is closed. */
  function ResponseSpec(tree: Tree, r: Response, net: Network): Sent {
    match r
    case Serve(p, ctype) => SendFileSpec(Lookup(tree, p), p, ctype, net)
    case Refuse(code) => ErrorSpec(code)
    case Raised => Sent([], [], true)
  }

  /** A complete send is the status 200, the content type, a `Content-Length` that reads
      back as the file's size, the cache header, and the file's bytes; the log holds only the
      access line of the 200. */
  lemma SendComplete(c: seq<bv8>, path: seq<string>, ctype: string, net: Network)
    requires net.Delivered? || net.accepted >= |c|
    ensures var s := SendFileSpec(Some(File(c)), path, ctype, net);
      && |s.events| == 6
      && s.events[0] == Status(200)
      && s.events[1] == HeaderLine("Content-Type", ctype)
      && s.events[2].HeaderLine? && s.events[2].name == "Content-Length"
      && (forall i :: 0 <= i < |s.events[2].value| ==> '0' <= s.events[2].value[i] <= '9')
      && ParseDecimal(s.events[2].value) == |c|
      && s.events[3] == HeaderLine("Cache-Control", "public, max-age=3600")
      && s.events[4] == EndHeaders && s.events[5] == Body(c)
      && s.logged == [Access(200)] && !s.closed
  {
    DecimalRoundTrip(|c|);
  }

  /** A failure is logged exactly when the send fails, a 500 goes out exactly when it failed
      and the stream is still open, and the 200 is in the access log exactly when the file's
      size could be read. */
  lemma ServerErrorIffFailedAndOpen(node: Option<Node>, path: seq<string>, ctype: string, net: Network)
    ensures var s := SendFileSpec(node, path, ctype, net);
      && (SendFailed(path) in s.logged <==> SendFails(node, net))
      && (ErrorPage(500) in s.events <==> SendFails(node, net) && !s.closed)
      && (Access(200) in s.logged <==> node.Some?)
  {
    var s := SendFileSpec(node, path, ctype, net);
    if node.Some? {
      var hs := Headers(ctype, if node.value.File? then |node.value.content| else node.value.statSize);
      assert forall i :: 0 <= i < |hs| ==> !hs[i].ErrorPage?;
      if node.value.File? && !(net.Broken? && net.accepted < |node.value.content|) {
        assert s.events == hs + [Body(node.value.content)];
        assert ErrorPage(500) !in s.events by {
          forall i | 0 <= i < |s.events| ensures s.events[i] != ErrorPage(500) {
            if i < |hs| {
              assert s.events[i] == hs[i];
            }
          }
        }
      } else if node.value.File? && net.closes {
        assert s.events == hs + [Body(node.value.content[..net.accepted])];
        assert ErrorPage(500) !in s.events by {
          forall i | 0 <= i < |s.events| ensures s.events[i] != ErrorPage(500) {
            if i < |hs| {
              assert s.events[i] == hs[i];
            }
          }
        }
      } else {
        assert s.events[|s.events| - 1] == ErrorPage(500);
      }
    }
  }

  /** A directory named `data.json`, or a client that breaks off without closing the
      stream, makes `_send_file` write a 500 after the 200 and its headers have gone out. */
  lemma ErrorAfterHeaders(path: seq<string>, ctype: string, size: nat)
    ensures var s := SendFileSpec(Some(Dir(size)), path, ctype, Delivered);
      s.events[0] == Status(200) && s.events[|s.events| - 1] == ErrorPage(500)
  {
  }

  /** Every answer begins with a status, 200 or an error response; only an exception leaves
      the client without one, and then nothing at all is written or logged. */
  lemma ResponseStartsWithStatus(tree: Tree, r: Response, net: Network)
    ensures var s := ResponseSpec(tree, r, net);
      && (s.events == [] <==> r.Raised?)
      && (s.events != [] ==> s.events[0] == Status(200) || s.events[0].ErrorPage?)
      && (r.Raised? ==> s.logged == [] && s.closed)
  {
    match r
    case Serve(p, ctype) =>
      var s := ResponseSpec(tree, r, net);
      assert s.events[0] == Status(200) || s.events[0].ErrorPage?;
    case Refuse(_) =>
    case Raised =>
  }

  // ---------------------------------------------------------------- the handler

  class Handler {
    const root: seq<string>
    const tree: Tree
    const guess: string -> Option<string>
    /** What has been written to the connection. */
    var out: seq<Event>
    /** Whether the output stream is closed. */
    var closed: bool
    /** What the handler logs: error messages and access lines alike. */
    var log: seq<LogEntry>

    predicate Valid()
      reads this
    {
      IsNames(root)
    }

    /** A handler for the resolved `root` on a fresh connection. */
    constructor (root: seq<string>, tree: Tree, guess: string -> Option<string>)
      requires IsNames(root)
      ensures Valid() && this.root == root && this.tree == tree && this.guess == guess
      ensures out == [] && !closed && log == []
    {
      this.root := root;
      this.tree := tree;
      this.guess := guess;
      out := [];
      closed := false;
      log := [];
    }

    method SendError(code: nat)
      modifies this
      ensures out == old(out) + ErrorSpec(code).events && log == old(log) + ErrorSpec(code).logged
      ensures closed == old(closed)
    {
      log := log + [ErrorSent(code)];
      out := out + [ErrorPage(code)];
      log := log + [Access(code)];
    }

    /** Directory listing is disabled: 403 whatever the directory. */
    method ListDirectory(path: seq<string>)
      modifies this
      ensures out == old(out) + [ErrorPage(403)] && log == old(log) + [ErrorSent(403), Access(403)]
      ensures closed == old(closed)
    {
      SendError(403);
    }

    /** `_send_file`: stat, status and headers, then the bytes, step by step. */
    method SendFile(path: seq<string>, ctype: string, net: Network)
      requires !closed
      modifies this
      ensures var s := SendFileSpec(Lookup(tree, path), path, ctype, net);
        out == old(out) + s.events && log == old(log) + s.logged && closed == s.closed
    {
      if path !in tree {
        log := log + [SendFailed(path)];
        SendError(500);
        return;
      }
      var node := tree[path];
      var size := if node.File? then |node.content| else node.statSize;
      out := out + [Status(200)];
      log := log + [Access(200)];
      out := out + [HeaderLine("Content-Type", ctype)];
      out := out + [HeaderLine("Content-Length", DecimalString(size))];
      out := out + [HeaderLine("Cache-Control", CacheControl)];
      out := out + [EndHeaders];
      assert out == old(out) + Headers(ctype, size);
      match node
      case Dir(_) =>
        log := log + [SendFailed(path)];
        SendError(500);
      case File(c) =>
        if net.Broken? && net.accepted < |c| {
          out := out + [Body(c[..net.accepted])];
          log := log + [SendFailed(path)];
          closed := net.closes;
          if !closed {
            SendError(500);
          }
        } else {
          out := out + [Body(c)];
        }
    }

    /** `do_GET` for a request path. */
    method DoGet(path: string, net: Network)
      requires Valid() && !closed
      modifies this
      ensures var s := ResponseSpec(tree, Route(root, tree, guess, path), net);
        out == old(out) + s.events && log == old(log) + s.logged && closed == s.closed
    {
      if path == "" || path == "/" {
        SendFile(root + [ManifestName], JsonType, net);
        return;
      }
      if ResolveRaises(path) {
        closed := true;
        return;
      }
      var target := Target(root, path);
      if !StartsWith(Render(target), Render(Resolve(Render(root))) + "/") {
        SendError(404);
        return;
      }
      if target in tree && tree[target].Dir? {
        var index := target + [ManifestName];
        if index in tree {
          SendFile(index, JsonType, net);
        } else {
          SendError(404);
        }
        return;
      }
      if target in tree {
        SendFile(target, ContentType(guess, target), net);
      } else {
        SendError(404);
      }
    }
  }
}
