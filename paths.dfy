/** How the static server turns a request path into a file path (lib/server.py `do_GET`):
    leading slashes stripped, percent-escapes decoded, the result joined to the root and
    resolved, and the containment test on the resolved strings.  Resolution is lexical: a
    resolved path is the sequence of its components. */
module Paths {
  import opened Strings

  // ---------------------------------------------------------------- request text

  /** `s.lstrip("/")`: every leading `/` removed, not just one. */
  function LStripSlashes(s: string): (r: string)
    ensures r == [] || r[0] != '/'
    ensures |r| <= |s| && r == s[|s| - |r|..]
    ensures forall i :: 0 <= i < |s| - |r| ==> s[i] == '/'
  {
    if s != [] && s[0] == '/' then LStripSlashes(s[1..]) else s
  }

  predicate IsHexDigit(c: char) {
    '0' <= c <= '9' || 'a' <= c <= 'f' || 'A' <= c <= 'F'
  }

  function HexValue(c: char): (v: nat)
    requires IsHexDigit(c)
    ensures v < 16
  {
    if '0' <= c <= '9' then c as int - '0' as int
    else if 'a' <= c <= 'f' then c as int - 'a' as int + 10
    else c as int - 'A' as int + 10
  }

  /** The character a decoded byte stands for on its own: itself below 0x80, otherwise the
      replacement character. */
  function ByteChar(b: nat): char
    requires b < 256
  {
    if b < 0x80 then b as char else '�'
  }

  /** `urllib.parse.unquote`: each `%XX` with two hex digits decoded, anything else kept. */
  function Unquote(s: string): (r: string)
    ensures |r| <= |s|
  {
    if |s| >= 3 && s[0] == '%' && IsHexDigit(s[1]) && IsHexDigit(s[2]) then
      [ByteChar(HexValue(s[1]) * 16 + HexValue(s[2]))] + Unquote(s[3..])
    else if s == [] then []
    else [s[0]] + Unquote(s[1..])
  }

  /** Text without `%` is left as it is. */
  lemma {:induction false} UnquotePlain(s: string)
    requires '%' !in s
    ensures Unquote(s) == s
  {
    if s != [] {
      assert '%' !in s[1..] by {
        forall i | 0 <= i < |s[1..]| ensures s[1..][i] != '%' {
          assert s[1..][i] == s[i + 1];
        }
      }
      UnquotePlain(s[1..]);
      assert s == [s[0]] + s[1..];
    }
  }

  /** An escaped `/` decodes to a `/`. */
  lemma UnquoteEncodedSlash(s: string)
    ensures Unquote("%2F" + s) == "/" + Unquote(s)
    ensures Unquote("%2f" + s) == "/" + Unquote(s)
  {
    assert ("%2F" + s)[3..] == s;
    assert ("%2f" + s)[3..] == s;
    assert HexValue('2') * 16 + HexValue('F') == 0x2F;
    assert HexValue('2') * 16 + HexValue('f') == 0x2F;
  }

  /** A `%` followed by two hex digits decodes to the character of that byte, whatever
      follows. */
  lemma UnquoteEscape(h1: char, h2: char, rest: string)
    requires IsHexDigit(h1) && IsHexDigit(h2)
    ensures Unquote(['%', h1, h2] + rest) == [ByteChar(HexValue(h1) * 16 + HexValue(h2))] + Unquote(rest)
  {
    var s := ['%', h1, h2] + rest;
    assert s[0] == '%' && s[1] == h1 && s[2] == h2 && s[3..] == rest;
  }

  /** Any other character, a `%` without two hex digits after it included, is kept as it is. */
  lemma UnquoteKeeps(c: char, rest: string)
    requires c != '%' || |rest| < 2 || !IsHexDigit(rest[0]) || !IsHexDigit(rest[1])
    ensures Unquote([c] + rest) == [c] + Unquote(rest)
  {
    var s := [c] + rest;
    assert s[0] == c && s[1..] == rest;
    if |s| >= 3 {
      assert s[1] == rest[0] && s[2] == rest[1];
    }
  }

  /** The upper-case hex digit of a value below 16. */
  function HexChar(n: nat): (c: char)
    requires n < 16
    ensures IsHexDigit(c) && HexValue(c) == n
  {
    if n < 10 then ('0' as int + n) as char else ('A' as int + n - 10) as char
  }

  /** The characters `urllib.parse.quote` leaves as they are (with `/` as its safe character). */
  predicate IsUnreserved(c: char) {
    'A' <= c <= 'Z' || 'a' <= c <= 'z' || '0' <= c <= '9' || c in "_.-~/"
  }

  predicate IsAscii(s: string) {
    forall i :: 0 <= i < |s| ==> s[i] as int < 0x80
  }

  /** `urllib.parse.quote` on ASCII text, as a client writes a request path: every character
      that is not unreserved becomes `%XX`. */
  function Quote(s: string): (r: string)
    requires IsAscii(s)
  {
    if s == [] then []
    else if IsUnreserved(s[0]) then [s[0]] + Quote(s[1..])
    else ['%', HexChar(s[0] as int / 16), HexChar(s[0] as int % 16)] + Quote(s[1..])
  }

  /** Decoding undoes the client's encoding: any ASCII path comes back as it was written. */
  lemma {:induction false} UnquoteQuote(s: string)
    requires IsAscii(s)
    ensures Unquote(Quote(s)) == s
  {
    if s != [] {
      var c := s[0];
      assert IsAscii(s[1..]) by {
        forall i | 0 <= i < |s[1..]| ensures s[1..][i] as int < 0x80 {
          assert s[1..][i] == s[i + 1];
        }
      }
      var q := Quote(s[1..]);
      UnquoteQuote(s[1..]);
      if IsUnreserved(c) {
        UnquoteKeeps(c, q);
      } else {
        var h1, h2 := HexChar(c as int / 16), HexChar(c as int % 16);
        UnquoteEscape(h1, h2, q);
        assert ByteChar(HexValue(h1) * 16 + HexValue(h2)) == c;
      }
      assert s == [c] + s[1..];
    }
  }

  // ---------------------------------------------------------------- resolved paths

  /** A component as resolution leaves it: not empty, no `/`, neither `.` nor `..`. */
  predicate IsName(w: string) {
    w != [] && '/' !in w && w != "." && w != ".."
  }

  predicate IsNames(segs: seq<string>) {
    forall i :: 0 <= i < |segs| ==> IsName(segs[i])
  }

  /** Walks `parts` from the directory `acc`: empty parts and `.` stay, `..` goes up (never
      above the filesystem root), a name goes down. */
  function NormalizeFrom(acc: seq<string>, parts: seq<string>): (r: seq<string>)
    requires IsNames(acc) && forall i :: 0 <= i < |parts| ==> '/' !in parts[i]
    ensures IsNames(r)
    decreases |parts|
  {
    if parts == [] then acc
    else
      var p := parts[0];
      if p == "" || p == "." then NormalizeFrom(acc, parts[1..])
      else if p == ".." then NormalizeFrom(if acc == [] then [] else acc[..|acc| - 1], parts[1..])
      else NormalizeFrom(acc + [p], parts[1..])
  }

  /** `Path(path).resolve()` for an absolute path, symbolic links aside. */
  function Resolve(path: string): (r: seq<string>)
    ensures IsNames(r)
  {
    var parts := SplitOn(path, '/');
    assert forall i :: 0 <= i < |parts| ==> '/' !in parts[i] by {
      forall i | 0 <= i < |parts| ensures '/' !in parts[i] {
        assert parts[i] in parts;
      }
    }
    NormalizeFrom([], parts)
  }

  function Slashed(segs: seq<string>): string {
    if segs == [] then [] else "/" + segs[0] + Slashed(segs[1..])
  }

  /** `str()` of a resolved path. */
  function Render(segs: seq<string>): string {
    if segs == [] then "/" else Slashed(segs)
  }

  /** `root / rel`: `rel` itself when it is absolute. */
  function Join(root: string, rel: string): string {
    if rel != [] && rel[0] == '/' then rel else root + "/" + rel
  }

  /** `t` lies strictly inside the directory `root`. */
  predicate Under(root: seq<string>, t: seq<string>) {
    0 < |root| < |t| && t[..|root|] == root
  }

  // ---------------------------------------------------------------- the containment test

  /** Where a name ends in a path string: `a` followed by a `/`-led rest is a prefix of `b`
      followed by a `/`-led or empty rest only when the names agree. */
  lemma WordPrefix(a: string, b: string, x: string, y: string)
    requires '/' !in a && '/' !in b
    requires x != [] && x[0] == '/' && (y == [] || y[0] == '/')
    ensures StartsWith(b + y, a + x) <==> a == b && StartsWith(y, x)
  {
    if |a| < |b| {
      NameEndsEarly(a, b, x, y);
    } else if |a| > |b| {
      NameEndsLate(a, b, x, y);
    } else {
      if StartsWith(b + y, a + x) {
        assert a == (a + x)[..|a|] == (b + y)[..|b|] == b;
        assert y[..|x|] == (b + y)[|b|..|b| + |x|] == (a + x)[|a|..] == x;
      }
      if a == b && StartsWith(y, x) {
        assert (b + y)[..|a + x|] == a + y[..|x|];
      }
    }
  }

  lemma NameEndsEarly(a: string, b: string, x: string, y: string)
    requires '/' !in b && x != [] && x[0] == '/' && |a| < |b|
    ensures !StartsWith(b + y, a + x)
  {
    assert b[|a|] in b;
    assert (b + y)[|a|] == b[|a|] && (a + x)[|a|] == '/';
  }

  lemma NameEndsLate(a: string, b: string, x: string, y: string)
    requires '/' !in a && (y == [] || y[0] == '/') && |a| > |b|
    ensures !StartsWith(b + y, a + x)
  {
    assert a[|b|] in a;
    if |a + x| <= |b + y| {
      assert (b + y)[|b|] == '/' && (a + x)[|b|] == a[|b|];
    }
  }

  lemma {:induction false} SlashedPrefix(r: seq<string>, t: seq<string>)
    requires IsNames(r) && IsNames(t)
    ensures StartsWith(Slashed(t), Slashed(r) + "/") <==> |r| < |t| && t[..|r|] == r
    decreases |r|
  {
    if r == [] {
      assert Slashed(r) + "/" == "/";
      if t != [] {
        assert Slashed(t)[0] == '/';
      }
    } else if t == [] {
    } else {
      var x, y := Slashed(r[1..]) + "/", Slashed(t[1..]);
      assert Slashed(r) + "/" == "/" + (r[0] + x);
      assert Slashed(t) == "/" + (t[0] + y);
      assert StartsWith(Slashed(t), Slashed(r) + "/") <==> StartsWith(t[0] + y, r[0] + x) by {
        var p, q := r[0] + x, t[0] + y;
        if StartsWith(q, p) {
          assert ("/" + q)[..|"/" + p|] == "/" + q[..|p|];
        }
        if StartsWith("/" + q, "/" + p) {
          assert q[..|p|] == ("/" + q)[1..|"/" + p|];
        }
      }
      assert x[0] == '/' by {
        if r[1..] != [] {
          assert Slashed(r[1..])[0] == '/';
        }
      }
      assert y != [] ==> y[0] == '/';
      assert IsName(r[0]) && IsName(t[0]);
      WordPrefix(r[0], t[0], x, y);
      SlashedPrefix(r[1..], t[1..]);
      assert (|r| < |t| && t[..|r|] == r) <==>
        (t[0] == r[0] && |r[1..]| < |t[1..]| && t[1..][..|r| - 1] == r[1..])
      by {
        if |r| < |t| {
          if t[..|r|] == r {
            assert t[1..][..|r| - 1] == t[..|r|][1..];
          }
          if t[0] == r[0] && t[1..][..|r| - 1] == r[1..] {
            assert t[..|r|] == [t[0]] + t[1..][..|r| - 1];
            assert r == [r[0]] + r[1..];
          }
        }
      }
    }
  }

  /** The server's test `str(target).startswith(str(root) + os.sep)` holds exactly when
      `target` lies strictly inside `root`: not the root itself, not a sibling whose name
      merely begins with the root's last component, and nothing at all when the root is the
      filesystem root. */
  lemma ContainedIffUnder(root: seq<string>, t: seq<string>)
    requires IsNames(root) && IsNames(t)
    ensures StartsWith(Render(t), Render(root) + "/") <==> Under(root, t)
  {
    if root == [] {
      if t != [] {
        assert Render(t)[1] == t[0][0];
        assert t[0][0] in t[0] && IsName(t[0]);
      }
    } else if t == [] {
      assert |Render(root) + "/"| >= 2;
    } else {
      SlashedPrefix(root, t);
    }
  }

  // ---------------------------------------------------------------- resolving a join

  lemma {:induction false} SplitSlashed(w: string, segs: seq<string>, tail: string)
    requires '/' !in w && IsNames(segs)
    ensures SplitOn(w + Slashed(segs) + "/" + tail, '/') == [w] + segs + SplitOn(tail, '/')
    decreases |segs|
  {
    if segs == [] {
      assert w + Slashed(segs) + "/" + tail == w + ['/'] + tail;
      SplitOnPiece(w, '/', tail);
    } else {
      var rest := segs[0] + Slashed(segs[1..]) + "/" + tail;
      Regroup(w, segs[0], Slashed(segs[1..]), tail);
      SplitOnPiece(w, '/', rest);
      assert IsName(segs[0]);
      SplitSlashed(segs[0], segs[1..], tail);
      assert segs == [segs[0]] + segs[1..];
    }
  }

  lemma {:induction false} SplitSlashedEnd(w: string, segs: seq<string>)
    requires '/' !in w && IsNames(segs)
    ensures SplitOn(w + Slashed(segs), '/') == [w] + segs
    decreases |segs|
  {
    if segs == [] {
      assert w + Slashed(segs) == w;
      SplitOnLast(w, '/');
    } else {
      var rest := segs[0] + Slashed(segs[1..]);
      RegroupEnd(w, segs[0], Slashed(segs[1..]));
      SplitOnPiece(w, '/', rest);
      assert IsName(segs[0]);
      SplitSlashedEnd(segs[0], segs[1..]);
      assert segs == [segs[0]] + segs[1..];
    }
  }

  lemma Regroup(w: string, x: string, y: string, tail: string)
    ensures w + ("/" + x + y) + "/" + tail == w + ['/'] + (x + y + "/" + tail)
  {
  }

  lemma RegroupEnd(w: string, x: string, y: string)
    ensures w + ("/" + x + y) == w + ['/'] + (x + y)
  {
  }

  lemma {:induction false} NormalizeNames(acc: seq<string>, names: seq<string>, parts: seq<string>)
    requires IsNames(acc) && IsNames(names) && forall i :: 0 <= i < |parts| ==> '/' !in parts[i]
    ensures forall i :: 0 <= i < |names + parts| ==> '/' !in (names + parts)[i]
    ensures NormalizeFrom(acc, names + parts) == NormalizeFrom(acc + names, parts)
    decreases |names|
  {
    if names == [] {
      assert names + parts == parts;
      assert acc + names == acc;
    } else {
      assert (names + parts)[0] == names[0] && (names + parts)[1..] == names[1..] + parts;
      assert IsName(names[0]);
      NormalizeNames(acc + [names[0]], names[1..], parts);
      assert acc + [names[0]] + names[1..] == acc + names;
    }
  }

  lemma NormalizeSkipsEmpty(acc: seq<string>, parts: seq<string>)
    requires IsNames(acc) && forall i :: 0 <= i < |parts| ==> '/' !in parts[i]
    ensures forall i :: 0 <= i < |[""] + parts| ==> '/' !in ([""] + parts)[i]
    ensures NormalizeFrom(acc, [""] + parts) == NormalizeFrom(acc, parts)
  {
    assert ([""] + parts)[1..] == parts;
  }

  /** A resolved path resolves to itself. */
  lemma ResolveRendered(segs: seq<string>)
    requires IsNames(segs)
    ensures Resolve(Render(segs)) == segs
  {
    if segs == [] {
      assert Render(segs) == "" + ['/'] + "";
      SplitOnPiece("", '/', "");
      SplitOnLast("", '/');
      assert SplitOn(Render(segs), '/') == [""] + ([""] + []);
      NormalizeSkipsEmpty([], [""] + []);
      NormalizeSkipsEmpty([], []);
    } else {
      assert Render(segs) == "" + Slashed(segs);
      SplitSlashedEnd("", segs);
      NormalizeNames([], segs, []);
      assert [""] + segs == [""] + (segs + []);
    }
  }

  lemma PartsHaveNoSlash(rel: string)
    ensures forall i :: 0 <= i < |SplitOn(rel, '/')| ==> '/' !in SplitOn(rel, '/')[i]
  {
    var parts := SplitOn(rel, '/');
    forall i | 0 <= i < |parts| ensures '/' !in parts[i] {
      assert parts[i] in parts;
    }
  }

  /** Joining a relative path to a resolved root and resolving walks the relative path's
      parts starting from the root. */
  lemma ResolveJoin(root: seq<string>, rel: string)
    requires IsNames(root) && (rel == [] || rel[0] != '/')
    ensures var parts := SplitOn(rel, '/');
      && (forall i :: 0 <= i < |parts| ==> '/' !in parts[i])
      && Resolve(Join(Render(root), rel)) == NormalizeFrom(root, parts)
  {
    PartsHaveNoSlash(rel);
    if root == [] {
      ResolveJoinAtTop(rel);
    } else {
      ResolveJoinBelow(root, rel);
    }
  }

  lemma ResolveJoinAtTop(rel: string)
    requires rel == [] || rel[0] != '/'
    requires forall i :: 0 <= i < |SplitOn(rel, '/')| ==> '/' !in SplitOn(rel, '/')[i]
    ensures Resolve(Join(Render([]), rel)) == NormalizeFrom([], SplitOn(rel, '/'))
  {
    var parts := SplitOn(rel, '/');
    var joined := Join(Render([]), rel);
    assert joined == "" + ['/'] + ("" + ['/'] + rel);
    SplitOnPiece("", '/', "" + ['/'] + rel);
    SplitOnPiece("", '/', rel);
    assert SplitOn(joined, '/') == [""] + ([""] + parts);
    NormalizeSkipsEmpty([], [""] + parts);
    NormalizeSkipsEmpty([], parts);
  }

  lemma ResolveJoinBelow(root: seq<string>, rel: string)
    requires IsNames(root) && root != [] && (rel == [] || rel[0] != '/')
    requires forall i :: 0 <= i < |SplitOn(rel, '/')| ==> '/' !in SplitOn(rel, '/')[i]
    ensures Resolve(Join(Render(root), rel)) == NormalizeFrom(root, SplitOn(rel, '/'))
  {
    var parts := SplitOn(rel, '/');
    var joined := Join(Render(root), rel);
    assert joined == "" + Slashed(root) + "/" + rel;
    SplitSlashed("", root, rel);
    assert SplitOn(joined, '/') == [""] + (root + parts);
    NormalizeNames([], root, parts);
    NormalizeSkipsEmpty([], root + parts);
    assert [] + root == root;
  }

  /** Without `..` among the parts, the walk never leaves the directory it starts from. */
  lemma {:induction false} NoParentStaysBelow(acc: seq<string>, parts: seq<string>)
    requires IsNames(acc) && forall i :: 0 <= i < |parts| ==> '/' !in parts[i] && parts[i] != ".."
    ensures |acc| <= |NormalizeFrom(acc, parts)| && NormalizeFrom(acc, parts)[..|acc|] == acc
    decreases |parts|
  {
    if parts != [] {
      var p := parts[0];
      if p == "" || p == "." {
        NoParentStaysBelow(acc, parts[1..]);
      } else {
        NoParentStaysBelow(acc + [p], parts[1..]);
        var r := NormalizeFrom(acc, parts);
        assert r[..|acc|] == r[..|acc| + 1][..|acc|];
      }
    }
  }
}
