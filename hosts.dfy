/** The loopback mapping for the mirror's domain in the system hosts file:
    `ensure_hosts_entry` (lib/add_ca.py) adds it, `remove_hosts_entry`
    (lib/clean.py) takes it out again.  The file is modelled as its text; a
    line is what `str.splitlines()` yields. */
module Hosts {
  import opened Strings

  /** The domain `lib/clean.py` removes (its `DOMAIN`); `add_ca()` passes the same literal. */
  const Domain: string := "release.lean-lang.org"

  /** The line `ensure_hosts_entry` appends. */
  function Entry(domain: string): string {
    "127.0.0.1  " + domain
  }

  /** A comment line: its first non-whitespace character is `#`. */
  predicate IsComment(line: string) {
    var t := TrimLeft(line);
    t != [] && t[0] == '#'
  }

  /** A line that maps `domain`: not a comment, and `domain` is one of its whitespace tokens.
      Both the presence scan and the removal filter use this test. */
  predicate Maps(line: string, domain: string): (b: bool)
    ensures b ==> IsToken(domain) && !IsComment(line)
  {
    !IsComment(line) && domain in Split(line)
  }

  predicate Present(lines: seq<string>, domain: string) {
    exists i :: 0 <= i < |lines| && Maps(lines[i], domain)
  }

  // ---------------------------------------------------------------- presence scan

  /** The `for line in text` loop of `ensure_hosts_entry`: skips comments, stops at the first
      line whose tokens include `domain`. */
  method ScanForEntry(lines: seq<string>, domain: string) returns (found: bool)
    ensures found <==> Present(lines, domain)
    ensures found <==> exists i :: 0 <= i < |lines| && !IsComment(lines[i]) && domain in Split(lines[i])
  {
    for i := 0 to |lines|
      invariant forall j :: 0 <= j < i ==> !Maps(lines[j], domain)
    {
      var line := lines[i];
      if IsComment(line) {
        continue;
      }
      if domain in Split(line) {
        return true;
      }
    }
    return false;
  }

  // ---------------------------------------------------------------- removal filter

  /** The lines that pass `test`, in their original order. */
  function Select(lines: seq<string>, test: string -> bool): (r: seq<string>)
    ensures |r| <= |lines|
    ensures forall l :: l in r ==> l in lines && test(l)
  {
    if lines == [] then []
    else
      var init, last := lines[..|lines| - 1], lines[|lines| - 1];
      if test(last) then Select(init, test) + [last] else Select(init, test)
  }

  function KeepTest(domain: string): string -> bool {
    l => !Maps(l, domain)
  }

  function DropTest(domain: string): string -> bool {
    l => Maps(l, domain)
  }

  /** Lines `remove_hosts_entry` keeps: every comment and every line that does not map `domain`. */
  function Kept(lines: seq<string>, domain: string): (r: seq<string>)
    ensures forall l :: l in r ==> l in lines && !Maps(l, domain)
  {
    Select(lines, KeepTest(domain))
  }

  /** Lines `remove_hosts_entry` drops: the lines that map `domain`. */
  function Dropped(lines: seq<string>, domain: string): (r: seq<string>)
    ensures forall l :: l in r ==> l in lines && Maps(l, domain)
  {
    Select(lines, DropTest(domain))
  }

  /** The `for line in content` loop of `remove_hosts_entry`, building `new_lines`,
      `drop_lines` and `changed`. */
  method FilterLines(content: seq<string>, domain: string)
    returns (newLines: seq<string>, dropLines: seq<string>, changed: bool)
    ensures newLines == Kept(content, domain)
    ensures dropLines == Dropped(content, domain)
    ensures changed <==> Present(content, domain)
  {
    newLines, dropLines, changed := [], [], false;
    for i := 0 to |content|
      invariant newLines == Kept(content[..i], domain)
      invariant dropLines == Dropped(content[..i], domain)
      invariant changed <==> Present(content[..i], domain)
    {
      var line := content[i];
      assert content[..i + 1] == content[..i] + [line];
      PresentSnoc(content[..i], line, domain);
      SelectSnoc(content[..i], line, KeepTest(domain));
      SelectSnoc(content[..i], line, DropTest(domain));
      if IsComment(line) {
        newLines := newLines + [line];
        continue;
      }
      var tokens := Split(line);
      if domain in tokens {
        changed := true;
        dropLines := dropLines + [line];
        continue;
      }
      newLines := newLines + [line];
    }
    assert content[..|content|] == content;
  }

  lemma PresentSnoc(lines: seq<string>, l: string, domain: string)
    ensures Present(lines + [l], domain) <==> Present(lines, domain) || Maps(l, domain)
  {
    var ls := lines + [l];
    if Maps(l, domain) {
      assert ls[|lines|] == l;
    }
    if Present(ls, domain) && !Maps(l, domain) {
      var i :| 0 <= i < |ls| && Maps(ls[i], domain);
      assert lines[i] == ls[i];
    }
    if Present(lines, domain) {
      var i :| 0 <= i < |lines| && Maps(lines[i], domain);
      assert ls[i] == lines[i];
    }
  }

  lemma SelectSnoc(lines: seq<string>, l: string, test: string -> bool)
    ensures Select(lines + [l], test) ==
      if test(l) then Select(lines, test) + [l] else Select(lines, test)
  {
    var ls := lines + [l];
    assert ls[..|ls| - 1] == lines && ls[|ls| - 1] == l;
  }

  /** The text `remove_hosts_entry` writes back: the kept lines joined by "\n", plus "\n". */
  function Rewritten(lines: seq<string>): (r: string)
    ensures r != [] && r[|r| - 1] == '\n'
  {
    JoinLines(lines) + "\n"
  }

  /** Every line passes exactly one of two complementary tests. */
  lemma {:induction false} SelectPartition(lines: seq<string>, p: string -> bool, q: string -> bool)
    requires forall l :: q(l) == !p(l)
    ensures |Select(lines, p)| + |Select(lines, q)| == |lines|
    ensures multiset(Select(lines, p)) + multiset(Select(lines, q)) == multiset(lines)
  {
    if lines != [] {
      var init := lines[..|lines| - 1];
      SelectPartition(init, p, q);
      assert lines == init + [lines[|lines| - 1]];
    }
  }

  /** Every line is either kept or dropped, and nothing else: the filter loses and invents nothing. */
  lemma KeptAndDroppedPartition(lines: seq<string>, domain: string)
    ensures |Kept(lines, domain)| + |Dropped(lines, domain)| == |lines|
    ensures multiset(Kept(lines, domain)) + multiset(Dropped(lines, domain)) == multiset(lines)
  {
    SelectPartition(lines, KeepTest(domain), DropTest(domain));
  }

  /** A line of the input is selected exactly when it passes the test. */
  lemma {:induction false} SelectMember(lines: seq<string>, test: string -> bool, l: string)
    requires l in lines
    ensures l in Select(lines, test) <==> test(l)
  {
    var init, last := lines[..|lines| - 1], lines[|lines| - 1];
    assert lines == init + [last];
    if l in init {
      SelectMember(init, test, l);
    }
  }

  /** Exactly the lines that do not map `domain` are kept, so comments stay verbatim. */
  lemma KeptExactly(lines: seq<string>, domain: string, l: string)
    requires l in lines
    ensures l in Kept(lines, domain) <==> !Maps(l, domain)
    ensures IsComment(l) ==> l in Kept(lines, domain)
    ensures l in Dropped(lines, domain) <==> Maps(l, domain)
  {
    SelectMember(lines, KeepTest(domain), l);
    SelectMember(lines, DropTest(domain), l);
  }

  /** Selection distributes over concatenation, so the selected lines keep their relative order. */
  lemma {:induction false} SelectConcat(a: seq<string>, b: seq<string>, test: string -> bool)
    ensures Select(a + b, test) == Select(a, test) + Select(b, test)
    decreases |b|
  {
    if b == [] {
      assert a + b == a;
    } else {
      var init, last := b[..|b| - 1], b[|b| - 1];
      assert b == init + [last];
      assert a + b == (a + init) + [last];
      SelectSnoc(init, last, test);
      SelectSnoc(a + init, last, test);
      SelectConcat(a, init, test);
    }
  }

  /** Filtering distributes over concatenation, so kept lines keep their relative order. */
  lemma KeptConcat(a: seq<string>, b: seq<string>, domain: string)
    ensures Kept(a + b, domain) == Kept(a, domain) + Kept(b, domain)
    ensures Dropped(a + b, domain) == Dropped(a, domain) + Dropped(b, domain)
  {
    SelectConcat(a, b, KeepTest(domain));
    SelectConcat(a, b, DropTest(domain));
  }

  /** The filter drops something iff the presence scan finds the domain. */
  lemma {:induction false} DroppedIffPresent(lines: seq<string>, domain: string)
    ensures Dropped(lines, domain) != [] <==> Present(lines, domain)
  {
    if lines != [] {
      var init, last := lines[..|lines| - 1], lines[|lines| - 1];
      assert lines == init + [last];
      PresentSnoc(init, last, domain);
      SelectSnoc(init, last, DropTest(domain));
      DroppedIffPresent(init, domain);
    }
  }

  /** Selecting again with the same test removes nothing more. */
  lemma {:induction false} SelectIdempotent(lines: seq<string>, test: string -> bool)
    ensures Select(Select(lines, test), test) == Select(lines, test)
  {
    if lines != [] {
      var init, last := lines[..|lines| - 1], lines[|lines| - 1];
      SelectIdempotent(init, test);
      if test(last) {
        SelectSnoc(Select(init, test), last, test);
      }
    }
  }

  /** Filtering the filtered lines drops nothing more: the filter is idempotent. */
  lemma KeptIdempotent(lines: seq<string>, domain: string)
    ensures Kept(Kept(lines, domain), domain) == Kept(lines, domain)
    ensures Dropped(Kept(lines, domain), domain) == []
    ensures !Present(Kept(lines, domain), domain)
  {
    var kept := Kept(lines, domain);
    SelectIdempotent(lines, KeepTest(domain));
    SelectNone(kept, DropTest(domain));
    DroppedIffPresent(kept, domain);
  }

  /** Lines that all fail the test select nothing. */
  lemma {:induction false} SelectNone(lines: seq<string>, test: string -> bool)
    requires forall l :: l in lines ==> !test(l)
    ensures Select(lines, test) == []
  {
    if lines != [] {
      var init := lines[..|lines| - 1];
      assert lines[|lines| - 1] in lines;
      assert forall l :: l in init ==> l in lines;
      SelectNone(init, test);
    }
  }

  /** Reading the rewritten file back gives the kept lines (one empty line when none was kept),
      so a second removal finds nothing to remove. */
  lemma RewrittenReadsBack(text: string, domain: string)
    ensures var kept := Kept(SplitLines(text), domain);
      SplitLines(Rewritten(kept)) == (if kept == [] then [""] else kept)
    ensures Dropped(SplitLines(Rewritten(Kept(SplitLines(text), domain))), domain) == []
  {
    var kept := Kept(SplitLines(text), domain);
    if kept == [] {
      assert Rewritten(kept) == Terminated([""]);
      SplitLinesTerminated([""]);
      assert !Maps("", domain);
      SelectSnoc([], "", DropTest(domain));
      assert [] + [""] == [""];
    } else {
      JoinThenNewline(kept);
      SplitLinesTerminated(kept);
      KeptIdempotent(SplitLines(text), domain);
    }
  }

  // ---------------------------------------------------------------- the write-time append

  /** A character `grep -w` counts as part of a word. */
  predicate IsWordChar(c: char) {
    'a' <= c <= 'z' || 'A' <= c <= 'Z' || '0' <= c <= '9' || c == '_'
  }

  /** `pattern` matches `text` at `i`, within one line; `.` is the regular-expression wildcard. */
  predicate MatchesAt(text: string, pattern: string, i: nat)
    requires i + |pattern| <= |text|
  {
    forall k :: 0 <= k < |pattern| ==>
      text[i + k] != '\n' && (pattern[k] == '.' || text[i + k] == pattern[k])
  }

  /** A whole-word match at `i`: not preceded or followed by a word character. */
  predicate WholeWordAt(text: string, pattern: string, i: nat) {
    && i + |pattern| <= |text|
    && MatchesAt(text, pattern, i)
    && (i == 0 || !IsWordChar(text[i - 1]))
    && (i + |pattern| == |text| || !IsWordChar(text[i + |pattern|]))
  }

  /** `grep -qw pattern` over the whole file, comment lines included. */
  predicate GrepWord(text: string, pattern: string) {
    exists i :: 0 <= i <= |text| && WholeWordAt(text, pattern, i)
  }

  /** The privileged append as written:
      `grep -qw '<domain>' /etc/hosts || echo '127.0.0.1  <domain>' >> /etc/hosts`. */
  function AppendAsWritten(text: string, domain: string): string {
    if GrepWord(text, domain) then text else text + Entry(domain) + "\n"
  }

  /** What `ensure_hosts_entry` leaves in the file as written, once its privileged command
      succeeds: the text is unchanged when the scan ran (`scanned`) and found a mapping,
      otherwise the grep-guarded append decides. */
  function EnsureAsWritten(text: string, scanned: bool, domain: string): (r: string)
    ensures r == text <==> (scanned && Present(SplitLines(text), domain)) || GrepWord(text, domain)
    ensures !(scanned && Present(SplitLines(text), domain)) && !GrepWord(text, domain) ==>
      r == text + Entry(domain) + "\n"
  {
    if scanned && Present(SplitLines(text), domain) then text else AppendAsWritten(text, domain)
  }

  /** On a file that ends with a line break and in which grep finds no whole-word match, the
      guard as written and the corrected guard leave the same text. */
  lemma AsWrittenAgrees(text: string, domain: string)
    requires !GrepWord(text, domain)
    requires text == [] || text[|text| - 1] == '\n'
    ensures EnsureAsWritten(text, true, domain) == AppendIfAbsent(text, domain)
  {
    if !Present(SplitLines(text), domain) {
      assert Terminate(text) == text;
    }
  }

  /** As written, a commented-out mapping satisfies the whole-word grep, so nothing is
      appended although the presence scan saw no mapping: the domain stays unmapped. */
  lemma CommentedEntryBlocksAppend()
    ensures var text := "# 127.0.0.1 " + Domain + "\n";
      && !Present(SplitLines(text), Domain)
      && AppendAsWritten(text, Domain) == text
  {
    var line := "# 127.0.0.1 " + Domain;
    assert line + "\n" == Terminated([line]);
    SplitLinesTerminated([line]);
    CommentNeverPresent(line, Domain);
    assert '\n' !in Domain;
    GrepFindsWord("# 127.0.0.1 ", Domain, "\n");
  }

  /** A file of one comment line maps nothing. */
  lemma CommentNeverPresent(line: string, domain: string)
    requires line != [] && line[0] == '#'
    ensures !Present([line], domain)
  {
    assert TrimLeft(line) == line;
  }

  /** `grep -w` finds a word that stands between non-word characters on one line. */
  lemma GrepFindsWord(before: string, word: string, after: string)
    requires '\n' !in word
    requires before == [] || !IsWordChar(before[|before| - 1])
    requires after == [] || !IsWordChar(after[0])
    ensures GrepWord(before + word + after, word)
  {
    var text := before + word + after;
    assert forall k :: 0 <= k < |word| ==> text[|before| + k] == word[k];
    assert WholeWordAt(text, word, |before|);
  }

  /** As written, `echo >>` glues the entry onto a last line that lacks its "\n"; after a
      last line that is a comment the entry becomes part of the comment. */
  lemma UnterminatedCommentSwallowsEntry()
    ensures var text := "# local";
      && !GrepWord(text, Domain)
      && AppendAsWritten(text, Domain) == "# local" + Entry(Domain) + "\n"
      && SplitLines(AppendAsWritten(text, Domain)) == ["# local" + Entry(Domain)]
      && !Present(SplitLines(AppendAsWritten(text, Domain)), Domain)
  {
    var line := "# local" + Entry(Domain);
    assert "# local" + Entry(Domain) + "\n" == Terminated([line]);
    SplitLinesTerminated([line]);
    assert IsComment(line);
  }

  /** Whether the text ends in a break of `splitlines` that `grep` and the resolver do not
      end a line at: neither "\n" nor the "\r" a following "\n" pairs with. */
  predicate EndsInOtherBreak(text: string) {
    text != [] && IsLineBreak(text[|text| - 1]) && text[|text| - 1] != '\n' && text[|text| - 1] != '\r'
  }

  /** The line `splitlines` reads between such a break and a "\n" added after it. */
  function BlankAfter(text: string): seq<string> {
    if EndsInOtherBreak(text) then [""] else []
  }

  /** The text with a final "\n" added unless it is empty or already ends in one, so that what
      is written next starts a line for `grep`, for the resolver and for `splitlines` alike. */
  function Terminate(text: string): (r: string)
    ensures r == [] || r[|r| - 1] == '\n'
    ensures |text| <= |r| <= |text| + 1 && r[..|text|] == text
    ensures SplitLines(r) == SplitLines(text) + BlankAfter(text)
  {
    if text == [] || text[|text| - 1] == '\n' then text
    else
      TerminateReadsBack(text);
      text + "\n"
  }

  lemma TerminateReadsBack(text: string)
    requires text != [] && text[|text| - 1] != '\n'
    ensures SplitLines(text + "\n") == SplitLines(text) + BlankAfter(text)
  {
    var last := text[|text| - 1];
    if !IsLineBreak(last) {
      SplitLinesFromNewline(text, []);
    } else if last == '\r' {
      var a := text[..|text| - 1];
      assert text == a + "\r" && text + "\n" == a + "\r\n";
      SplitLinesFromCrLf(a, []);
    } else {
      SplitLinesAppend(text, "\n");
      assert SplitLines("\n") == [""] by {
        assert AfterBreak("\n") == [];
      }
    }
  }

  /** The append with the evidently intended guard: the write-time check looks for a line that
      maps the domain (the scan's own test), and the entry always starts a line of its own:
      the text is kept as it is, and the entry follows a "\n" or starts the file. */
  function AppendIfAbsent(text: string, domain: string): (r: string)
    ensures Present(SplitLines(text), domain) ==> r == text
    ensures !Present(SplitLines(text), domain) ==>
      var k := |r| - |Entry(domain)| - 1;
      && |text| <= k <= |text| + 1 && r[..|text|] == text
      && r[k..] == Entry(domain) + "\n" && (k == 0 || r[k - 1] == '\n')
    ensures !Present(SplitLines(text), domain) && IsToken(domain) ==>
      SplitLines(r) == SplitLines(text) + BlankAfter(text) + [Entry(domain)]
    ensures IsToken(domain) ==> Present(SplitLines(r), domain)
  {
    if Present(SplitLines(text), domain) then text
    else
      AppendedEntryReadsBack(text, domain);
      Terminate(text) + Entry(domain) + "\n"
  }

  lemma AppendedEntryReadsBack(text: string, domain: string)
    ensures var r, k := Terminate(text) + Entry(domain) + "\n", |Terminate(text)|;
      && k == |r| - |Entry(domain)| - 1 && r[..|text|] == text
      && r[k..] == Entry(domain) + "\n" && (k == 0 || r[k - 1] == '\n')
    ensures IsToken(domain) ==>
      SplitLines(Terminate(text) + Entry(domain) + "\n") == SplitLines(text) + BlankAfter(text) + [Entry(domain)]
    ensures IsToken(domain) ==> Present(SplitLines(text) + BlankAfter(text) + [Entry(domain)], domain)
  {
    var t := Terminate(text);
    var r := t + Entry(domain) + "\n";
    assert r[..|t|] == t;
    assert r[..|text|] == t[..|text|];
    assert r[|t|..] == Entry(domain) + "\n";
    if IsToken(domain) {
      AppendedTokenReadsBack(text, domain);
    }
  }

  lemma AppendedTokenReadsBack(text: string, domain: string)
    requires IsToken(domain)
    ensures SplitLines(Terminate(text) + Entry(domain) + "\n") == SplitLines(text) + BlankAfter(text) + [Entry(domain)]
    ensures Present(SplitLines(text) + BlankAfter(text) + [Entry(domain)], domain)
  {
    var t, e := Terminate(text), Entry(domain);
    TokenHasNoLineBreak(domain);
    assert NoLineBreak(e);
    assert e + "\n" == Terminated([e]);
    SplitLinesTerminated([e]);
    if t == [] {
      assert t + e + "\n" == e + "\n";
    } else {
      assert t + e + "\n" == t + (e + "\n");
      SplitLinesAppend(t, e + "\n");
    }
    EntryMaps(domain);
    var lines := SplitLines(text) + BlankAfter(text) + [e];
    assert lines[|lines| - 1] == e;
  }

  /** The appended line is no comment and carries the domain as a token. */
  lemma EntryMaps(domain: string)
    requires IsToken(domain)
    ensures Split(Entry(domain)) == ["127.0.0.1", domain]
    ensures Maps(Entry(domain), domain)
  {
    assert Entry(domain) == "127.0.0.1" + ("  " + domain);
    SplitToken("127.0.0.1", "  " + domain);
    SplitLeadingSpace("  ", domain);
    assert domain == domain + [];
    SplitToken(domain, []);
    assert IsToken("127.0.0.1");
    assert TrimLeft(Entry(domain)) == Entry(domain);
  }

  // ---------------------------------------------------------------- the hosts file

  datatype RemoveOutcome =
    | HostsMissing        // "/etc/hosts does not exist"
    | PermissionDenied    // the read failed: the operator must edit the file by hand
    | NothingToRemove     // no line maps the domain; nothing is written
    | Removed(lines: seq<string>)  // the dropped lines; the file has been rewritten
    | Exited              // the privileged copy back failed and the process exited
    | DecodeFailed        // the file is not valid UTF-8: UnicodeDecodeError ends the process

  /** The system hosts file as the two operations see it.  Each method models one call on a
      running process; when a privileged command fails, `run_command` ends the process, which
      the method reports and after which nothing else runs. */
  class HostsFile {
    var onDisk: bool      // the file exists
    var readable: bool    // reading it does not raise PermissionError
    var utf8: bool        // its bytes decode as UTF-8, so reading it does not raise UnicodeDecodeError
    var text: string      // what it says, where it decodes
    const privileged: bool  // `sudo` commands succeed on this host

    ghost predicate Valid()
      reads this
    {
      !onDisk ==> text == [] && utf8
    }

    constructor (onDisk: bool, readable: bool, utf8: bool, text: string, privileged: bool)
      requires onDisk || (text == [] && utf8)
      ensures Valid()
      ensures this.onDisk == onDisk && this.readable == readable && this.utf8 == utf8 && this.text == text
      ensures this.privileged == privileged
    {
      this.onDisk, this.readable, this.utf8, this.text := onDisk, readable, utf8, text;
      this.privileged := privileged;
    }

    /** Whether reading the file raises `UnicodeDecodeError`, which neither operation catches:
        it exists, can be opened, and is not valid UTF-8. */
    predicate DecodeRaises()
      reads this
    {
      onDisk && readable && !utf8
    }

    /** `ensure_hosts_entry(domain)` as written: the scan when the file exists and can be
        read, then `sudo sh -c "grep -qw … || echo … >> /etc/hosts"`; `ok` is false when the
        read raises `UnicodeDecodeError` or that command fails, either of which ends the
        process.  A missing file is created by the append. */
    method EnsureEntryAsWritten(domain: string) returns (ok: bool)
      requires Valid()
      modifies this
      ensures Valid() && readable == old(readable) && utf8 == old(utf8)
      ensures ok <==> (!old(DecodeRaises()) &&
                       (privileged || (old(onDisk) && readable && Present(SplitLines(old(text)), domain))))
      ensures ok ==> onDisk && text == EnsureAsWritten(old(text), old(onDisk) && readable, domain)
      ensures !ok ==> onDisk == old(onDisk) && text == old(text)
    {
      if onDisk && readable {
        if !utf8 {
          return false;
        }
        var found := ScanForEntry(SplitLines(text), domain);
        if found {
          return true;
        }
      }
      if !privileged {
        return false;
      }
      text := AppendAsWritten(text, domain);
      onDisk := true;
      ok := true;
    }

    /** `ensure_hosts_entry(domain)` with the corrected guard (see `AppendIfAbsent`): the scan
        decides first, and the privileged append re-checks with the scan's own test.  A file
        that is not valid UTF-8 ends the process as the code as written does. */
    method EnsureEntry(domain: string) returns (ok: bool)
      requires Valid()
      modifies this
      ensures Valid() && readable == old(readable) && utf8 == old(utf8)
      ensures ok <==> (!old(DecodeRaises()) &&
                       (privileged || (old(onDisk) && readable && Present(SplitLines(old(text)), domain))))
      ensures ok ==> onDisk && text == AppendIfAbsent(old(text), domain)
      ensures !ok ==> onDisk == old(onDisk) && text == old(text)
      ensures ok && Present(SplitLines(old(text)), domain) ==> text == old(text)
      ensures ok && IsToken(domain) ==> Present(SplitLines(text), domain)
      ensures ok && IsToken(domain) ==>
        SplitLines(text) == SplitLines(old(text)) ||
        SplitLines(text) == SplitLines(old(text)) + BlankAfter(old(text)) + [Entry(domain)]
    {
      if onDisk && readable {
        if !utf8 {
          return false;
        }
        var found := ScanForEntry(SplitLines(text), domain);
        if found {
          return true;
        }
      }
      if !privileged {
        return false;
      }
      text := AppendIfAbsent(text, domain);
      onDisk := true;
      ok := true;
    }

    /** `remove_hosts_entry()`: rewrites the file without the lines that map `Domain`; a file
        that is not valid UTF-8 ends the process before anything is filtered. */
    method RemoveEntry() returns (outcome: RemoveOutcome)
      requires Valid()
      modifies this
      ensures Valid() && onDisk == old(onDisk) && readable == old(readable) && utf8 == old(utf8)
      ensures !old(onDisk) ==> outcome == HostsMissing && text == old(text)
      ensures old(onDisk) && !old(readable) ==> outcome == PermissionDenied && text == old(text)
      ensures old(DecodeRaises()) ==> outcome == DecodeFailed && text == old(text)
      ensures old(onDisk) && old(readable) && old(utf8) ==>
        var lines := SplitLines(old(text));
        if !Present(lines, Domain) then
          outcome == NothingToRemove && text == old(text)
        else if !privileged then
          outcome == Exited && text == old(text)
        else
          outcome == Removed(Dropped(lines, Domain)) && text == Rewritten(Kept(lines, Domain))
      ensures outcome.Removed? ==> !Present(SplitLines(text), Domain)
    {
      if !onDisk {
        return HostsMissing;
      }
      if !readable {
        return PermissionDenied;
      }
      if !utf8 {
        return DecodeFailed;
      }
      var newLines, dropLines, changed := FilterLines(SplitLines(text), Domain);
      if changed {
        if !privileged {
          return Exited;
        }
        text := Rewritten(newLines);
        RewrittenReadsBack(old(text), Domain);
        DroppedIffPresent(SplitLines(text), Domain);
        return Removed(dropLines);
      }
      return NothingToRemove;
    }
  }
}
