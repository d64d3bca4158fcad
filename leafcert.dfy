/** The leaf certificate's request data (lib/add_ca.py `generate_server_certificate`): the
    OpenSSL extension file, which fixes the subject alternative names, and the CSR subject.
    Both are plain text built from the domain; they are read back here by a simplified reader
    of OpenSSL's formats (a config file of `key = value` lines under `[section]` headers, and
    a `/`-separated list of `type=value` name components), which leaves out comments,
    variable expansion, quoting and escapes. */
module LeafCert {
  import opened Strings

  /** One line of an OpenSSL config file: an assignment, written `key = value` or, when not
      `spaced`, `key=value`; or a section header `[name]`. */
  datatype ConfLine = Assign(key: string, value: string, spaced: bool) | Header(name: string)

  function Render(l: ConfLine): string {
    match l
    case Assign(k, v, spaced) => if spaced then k + " = " + v else k + "=" + v
    case Header(n) => "[" + n + "]"
  }

  function RenderAll(conf: seq<ConfLine>): (r: seq<string>)
    ensures |r| == |conf| && forall i :: 0 <= i < |conf| ==> r[i] == Render(conf[i])
  {
    if conf == [] then [] else [Render(conf[0])] + RenderAll(conf[1..])
  }

  /** A config file's text: each line followed by a newline. */
  function ConfText(conf: seq<ConfLine>): string {
    Terminated(RenderAll(conf))
  }

  const KeyUsages := "critical, " + "digitalSignature, " + "keyEncipherment"

  /** The lines of the text written to `server.ext`. */
  function ExtensionConf(domain: string): seq<ConfLine> {
    [Assign("basicConstraints", "CA:FALSE", false),
     Assign("keyUsage", KeyUsages, true),
     Assign("extendedKeyUsage", "serverAuth", true),
     Assign("subjectAltName", "@alt_names", true),
     Header("alt_names"),
     Assign("DNS.1", domain, true),
     Assign("DNS.2", "localhost", true),
     Assign("IP.1", "127.0.0.1", true)]
  }

  /** The text written to `server.ext`. */
  function ExtensionText(domain: string): string {
    ConfText(ExtensionConf(domain))
  }

  /** One `type=value` component of a subject name. */
  datatype Rdn = Rdn(typ: string, value: string)

  function RdnText(r: Rdn): string {
    r.typ + "=" + r.value
  }

  /** A subject name written as OpenSSL's `-subj` takes it: each component preceded by `/`. */
  function SubjectText(rdns: seq<Rdn>): string {
    if rdns == [] then [] else "/" + RdnText(rdns[0]) + SubjectText(rdns[1..])
  }

  /** The components of the CSR's subject, the domain as common name. */
  function CsrRdns(domain: string): seq<Rdn> {
    [Rdn("C", "CN"), Rdn("ST", "Local"), Rdn("L", "Local"), Rdn("O", "Local Dev"),
     Rdn("OU", "Server"), Rdn("CN", domain)]
  }

  /** The `-subj` argument of the CSR. */
  function CsrSubject(domain: string): string {
    SubjectText(CsrRdns(domain))
  }

  // ---------------------------------------------------------------- reading it back

  predicate IsBlank(c: char) {
    c == ' ' || c == '\t'
  }

  function DropLeadingBlanks(s: string): (t: string)
    ensures t == [] || !IsBlank(t[0])
    ensures |t| <= |s| && t == s[|s| - |t|..]
  {
    if s != [] && IsBlank(s[0]) then DropLeadingBlanks(s[1..]) else s
  }

  function DropTrailingBlanks(s: string): (t: string)
    ensures t == [] || !IsBlank(t[|t| - 1])
    ensures |t| <= |s| && t == s[..|t|]
  {
    if s != [] && IsBlank(s[|s| - 1]) then DropTrailingBlanks(s[..|s| - 1]) else s
  }

  /** Blanks removed from both ends. */
  function StripBlanks(s: string): string {
    DropTrailingBlanks(DropLeadingBlanks(s))
  }

  /** The first position of `c` in `s`. */
  function IndexOf(s: string, c: char): (i: nat)
    requires c in s
    ensures i < |s| && s[i] == c && c !in s[..i]
  {
    if s[0] == c then 0 else 1 + IndexOf(s[1..], c)
  }

  /** A `key = value` line of an OpenSSL config, split at its first `=`, blanks stripped. */
  function Assignment(line: string): Option<(string, string)> {
    if '=' in line then
      var i := IndexOf(line, '=');
      Some((StripBlanks(line[..i]), StripBlanks(line[i + 1..])))
    else None
  }

  predicate IsHeader(line: string) {
    var t := StripBlanks(line);
    t != [] && t[0] == '['
  }

  /** The assignments before the next section header. */
  function Entries(lines: seq<string>): seq<(string, string)> {
    if lines == [] || IsHeader(lines[0]) then []
    else
      match Assignment(lines[0])
      case None => Entries(lines[1..])
      case Some(kv) => [kv] + Entries(lines[1..])
  }

  /** The lines after the header `[name]`, or none if there is no such header. */
  function AfterHeader(lines: seq<string>, name: string): seq<string> {
    if lines == [] then []
    else if StripBlanks(lines[0]) == "[" + name + "]" then lines[1..]
    else AfterHeader(lines[1..], name)
  }

  /** The assignments of the unnamed leading section. */
  function DefaultSection(text: string): seq<(string, string)> {
    Entries(SplitLines(text))
  }

  /** The assignments of section `[name]`. */
  function Section(text: string, name: string): seq<(string, string)> {
    Entries(AfterHeader(SplitLines(text), name))
  }

  /** The name components of a `/type=value/...` subject string. */
  function Components(subject: string): seq<string> {
    if subject != [] && subject[0] == '/' then SplitOn(subject[1..], '/') else []
  }

  /** The value of the last component of type `key`, as the most specific one. */
  function Attribute(components: seq<string>, key: string): Option<string> {
    if components == [] then None
    else
      var last := components[|components| - 1];
      if '=' in last && last[..IndexOf(last, '=')] == key then Some(last[IndexOf(last, '=') + 1..])
      else Attribute(components[..|components| - 1], key)
  }


  // ---------------------------------------------------------------- the config as written

  /** The assignments of a config before its first header. */
  function ConfEntries(conf: seq<ConfLine>): seq<(string, string)> {
    if conf == [] || conf[0].Header? then []
    else [(conf[0].key, conf[0].value)] + ConfEntries(conf[1..])
  }

  /** The lines of a config after the header `[name]`. */
  function ConfAfter(conf: seq<ConfLine>, name: string): (r: seq<ConfLine>)
    ensures |r| <= |conf| && r == conf[|conf| - |r|..]
  {
    if conf == [] then []
    else if conf[0] == Header(name) then conf[1..]
    else ConfAfter(conf[1..], name)
  }

  /** Non-empty, with no blank at either end. */
  predicate Trimmed(s: string) {
    s != [] && !IsBlank(s[0]) && !IsBlank(s[|s| - 1])
  }

  /** A line that renders as one line of text and reads back as written: keys and values
      without blanks at their ends, keys without `=` and not starting with `[`. */
  predicate WellFormed(l: ConfLine) {
    match l
    case Assign(k, v, _) =>
      Trimmed(k) && NoLineBreak(k) && '=' !in k && k[0] != '[' && Trimmed(v) && NoLineBreak(v)
    case Header(n) => NoLineBreak(n)
  }

  // ---------------------------------------------------------------- one line

  lemma IndexOfAfter(a: string, c: char, b: string)
    requires c !in a
    ensures c in a + [c] + b && IndexOf(a + [c] + b, c) == |a|
  {
    var s := a + [c] + b;
    assert s[|a|] == c;
  }

  lemma NoLineBreakConcat(a: string, b: string)
    requires NoLineBreak(a) && NoLineBreak(b)
    ensures NoLineBreak(a + b)
  {
    assert forall i :: |a| <= i < |a + b| ==> (a + b)[i] == b[i - |a|];
  }

  lemma SeparatorsClean()
    ensures NoLineBreak(" = ") && NoLineBreak("=") && NoLineBreak("[") && NoLineBreak("]")
  {
  }

  lemma StripTrimmed(s: string)
    requires Trimmed(s)
    ensures StripBlanks(s) == s
  {
    assert DropLeadingBlanks(s) == s;
    assert DropTrailingBlanks(s) == s;
  }

  lemma StripPadded(s: string)
    requires Trimmed(s)
    ensures StripBlanks(" " + s) == s && StripBlanks(s + " ") == s
  {
    StripLeftPadded(s);
    StripRightPadded(s);
  }

  lemma StripLeftPadded(s: string)
    requires Trimmed(s)
    ensures StripBlanks(" " + s) == s
  {
    assert (" " + s)[1..] == s;
    assert DropLeadingBlanks(" " + s) == DropLeadingBlanks(s) == s;
    assert DropTrailingBlanks(s) == s;
  }

  lemma StripRightPadded(s: string)
    requires Trimmed(s)
    ensures StripBlanks(s + " ") == s
  {
    assert (s + " ")[0] == s[0];
    assert DropLeadingBlanks(s + " ") == s + " ";
    assert (s + " ")[..|s|] == s;
    assert DropTrailingBlanks(s + " ") == DropTrailingBlanks(s) == s;
  }

  lemma SpacedAssignment(key: string, value: string)
    requires Trimmed(key) && '=' !in key && Trimmed(value)
    ensures Assignment(key + " = " + value) == Some((key, value))
  {
    var line := key + " = " + value;
    assert line == (key + " ") + ['='] + (" " + value);
    assert '=' !in key + " ";
    IndexOfAfter(key + " ", '=', " " + value);
    assert line[..|key| + 1] == key + " ";
    assert line[|key| + 2..] == " " + value;
    StripPadded(key);
    StripPadded(value);
  }

  lemma TightAssignment(key: string, value: string)
    requires Trimmed(key) && '=' !in key && Trimmed(value)
    ensures Assignment(key + "=" + value) == Some((key, value))
  {
    var line := key + "=" + value;
    assert line == key + ['='] + value;
    IndexOfAfter(key, '=', value);
    assert line[..|key|] == key;
    assert line[|key| + 1..] == value;
    StripTrimmed(key);
    StripTrimmed(value);
  }

  /** A well-formed line is one line of text, already stripped, a header exactly when it was
      written as one, and an assignment reads back as its key and value. */
  lemma LineReadsBack(l: ConfLine)
    requires WellFormed(l)
    ensures NoLineBreak(Render(l))
    ensures StripBlanks(Render(l)) == Render(l)
    ensures IsHeader(Render(l)) <==> l.Header?
    ensures l.Assign? ==> Assignment(Render(l)) == Some((l.key, l.value))
  {
    var line := Render(l);
    SeparatorsClean();
    match l
    case Assign(k, v, spaced) =>
      assert line[0] == k[0] && line[|line| - 1] == v[|v| - 1];
      StripTrimmed(line);
      if spaced {
        NoLineBreakConcat(k, " = ");
        NoLineBreakConcat(k + " = ", v);
        SpacedAssignment(k, v);
      } else {
        NoLineBreakConcat(k, "=");
        NoLineBreakConcat(k + "=", v);
        TightAssignment(k, v);
      }
    case Header(n) =>
      assert line[0] == '[' && line[|line| - 1] == ']';
      StripTrimmed(line);
      NoLineBreakConcat("[", n);
      NoLineBreakConcat("[" + n, "]");
  }

  /** A line is the header `[name]` exactly when it was written as that header. */
  lemma HeaderMatches(l: ConfLine, name: string)
    requires WellFormed(l)
    ensures StripBlanks(Render(l)) == "[" + name + "]" <==> l == Header(name)
  {
    LineReadsBack(l);
    match l
    case Assign(k, v, spaced) => AssignIsNoHeader(k, v, spaced, name);
    case Header(n) => HeaderInjective(n, name);
  }

  lemma AssignIsNoHeader(k: string, v: string, spaced: bool, name: string)
    requires k != [] && k[0] != '['
    ensures Render(Assign(k, v, spaced)) != "[" + name + "]"
  {
    assert Render(Assign(k, v, spaced))[0] == k[0];
    assert ("[" + name + "]")[0] == '[';
  }

  lemma HeaderInjective(n: string, name: string)
    ensures Render(Header(n)) == "[" + name + "]" <==> n == name
  {
    var line := Render(Header(n));
    if line == "[" + name + "]" {
      assert n == line[1..|line| - 1];
      assert name == line[1..|line| - 1];
    }
  }

  // ---------------------------------------------------------------- the whole file

  /** Reading the rendered lines gives the assignments as written. */
  lemma {:induction false} EntriesRendered(conf: seq<ConfLine>)
    requires forall i :: 0 <= i < |conf| ==> WellFormed(conf[i])
    ensures Entries(RenderAll(conf)) == ConfEntries(conf)
  {
    if conf != [] {
      var ls := RenderAll(conf);
      LineReadsBack(conf[0]);
      assert ls[1..] == RenderAll(conf[1..]);
      EntriesRendered(conf[1..]);
    }
  }

  /** Looking for a header in the rendered lines finds it where it was written. */
  lemma {:induction false} AfterHeaderRendered(conf: seq<ConfLine>, name: string)
    requires forall i :: 0 <= i < |conf| ==> WellFormed(conf[i])
    ensures AfterHeader(RenderAll(conf), name) == RenderAll(ConfAfter(conf, name))
  {
    if conf != [] {
      var ls := RenderAll(conf);
      HeaderMatches(conf[0], name);
      assert ls[1..] == RenderAll(conf[1..]);
      AfterHeaderRendered(conf[1..], name);
    }
  }

  /** The text splits back into the rendered lines. */
  lemma TextLines(conf: seq<ConfLine>)
    requires forall i :: 0 <= i < |conf| ==> WellFormed(conf[i])
    ensures SplitLines(ConfText(conf)) == RenderAll(conf)
  {
    var ls := RenderAll(conf);
    forall l | l in ls
      ensures NoLineBreak(l)
    {
      var k :| 0 <= k < |ls| && ls[k] == l;
      LineReadsBack(conf[k]);
    }
    SplitLinesTerminated(ls);
  }

  /** The simplified reader reads the unnamed section of a well-formed config as the
      assignments written before its first header. */
  lemma DefaultSectionReadsBack(conf: seq<ConfLine>)
    requires forall i :: 0 <= i < |conf| ==> WellFormed(conf[i])
    ensures DefaultSection(ConfText(conf)) == ConfEntries(conf)
  {
    TextLines(conf);
    EntriesRendered(conf);
  }

  /** The simplified reader reads section `[name]` of a well-formed config as the assignments
      written after that header. */
  lemma SectionReadsBack(conf: seq<ConfLine>, name: string)
    requires forall i :: 0 <= i < |conf| ==> WellFormed(conf[i])
    ensures Section(ConfText(conf), name) == ConfEntries(ConfAfter(conf, name))
  {
    TextLines(conf);
    AfterHeaderRendered(conf, name);
    EntriesRendered(ConfAfter(conf, name));
  }

  // ---------------------------------------------------------------- the extension file

  lemma KeyUsagesClean()
    ensures Trimmed(KeyUsages) && NoLineBreak(KeyUsages)
  {
    var a, b, c := "critical, ", "digitalSignature, ", "keyEncipherment";
    assert NoLineBreak(a) && NoLineBreak(b) && NoLineBreak(c);
    NoLineBreakConcat(a, b);
    NoLineBreakConcat(a + b, c);
  }

  lemma BasicConstraintsWellFormed()
    ensures WellFormed(Assign("basicConstraints", "CA:FALSE", false))
  {
  }

  lemma KeyUsageWellFormed()
    ensures WellFormed(Assign("keyUsage", KeyUsages, true))
  {
    KeyUsagesClean();
  }

  lemma ExtendedKeyUsageWellFormed()
    ensures WellFormed(Assign("extendedKeyUsage", "serverAuth", true))
  {
  }

  lemma SubjectAltNameWellFormed()
    ensures WellFormed(Assign("subjectAltName", "@alt_names", true))
  {
  }

  lemma AltNamesWellFormed()
    ensures WellFormed(Header("alt_names"))
  {
  }

  lemma DomainWellFormed(domain: string)
    requires IsToken(domain)
    ensures WellFormed(Assign("DNS.1", domain, true))
  {
    TokenHasNoLineBreak(domain);
  }

  lemma LocalhostWellFormed()
    ensures WellFormed(Assign("DNS.2", "localhost", true))
  {
  }

  lemma LoopbackWellFormed()
    ensures WellFormed(Assign("IP.1", "127.0.0.1", true))
  {
  }

  /** Every line of the extension file is well formed when the domain is one token. */
  lemma ExtensionWellFormed(domain: string)
    requires IsToken(domain)
    ensures forall i :: 0 <= i < |ExtensionConf(domain)| ==> WellFormed(ExtensionConf(domain)[i])
  {
    BasicConstraintsWellFormed();
    KeyUsageWellFormed();
    ExtendedKeyUsageWellFormed();
    SubjectAltNameWellFormed();
    AltNamesWellFormed();
    DomainWellFormed(domain);
    LocalhostWellFormed();
    LoopbackWellFormed();
  }

  /** The leaf is not a CA, may sign and encipher keys, serves TLS, and takes its
      alternative names from `[alt_names]`. */
  lemma ExtensionDefaultSection(domain: string)
    requires IsToken(domain)
    ensures DefaultSection(ExtensionText(domain)) ==
      [("basicConstraints", "CA:FALSE"),
       ("keyUsage", "critical, digitalSignature, keyEncipherment"),
       ("extendedKeyUsage", "serverAuth"),
       ("subjectAltName", "@alt_names")]
  {
    ExtensionWellFormed(domain);
    DefaultSectionReadsBack(ExtensionConf(domain));
    ExtensionEntries(domain);
    KeyUsagesText();
  }

  lemma KeyUsagesText()
    ensures KeyUsages == "critical, digitalSignature, keyEncipherment"
  {
  }

  lemma ExtensionEntries(domain: string)
    ensures ConfEntries(ExtensionConf(domain)) ==
      [("basicConstraints", "CA:FALSE"),
       ("keyUsage", KeyUsages),
       ("extendedKeyUsage", "serverAuth"),
       ("subjectAltName", "@alt_names")]
  {
    var c := ExtensionConf(domain);
    assert ConfEntries(c[4..]) == [];
    ConfEntriesCons(c, 3);
    ConfEntriesCons(c, 2);
    ConfEntriesCons(c, 1);
    ConfEntriesCons(c, 0);
  }

  lemma ExtensionAltHeader(domain: string)
    ensures ConfAfter(ExtensionConf(domain), "alt_names") == ExtensionConf(domain)[5..]
  {
    var c := ExtensionConf(domain);
    assert c[4] == Header("alt_names") && c[4..][1..] == c[5..];
    assert ConfAfter(c[4..], "alt_names") == c[5..];
    ConfAfterSkips(c, 3, "alt_names");
    ConfAfterSkips(c, 2, "alt_names");
    ConfAfterSkips(c, 1, "alt_names");
    ConfAfterSkips(c, 0, "alt_names");
    assert c[0..] == c;
  }

  lemma ConfAfterSkips(conf: seq<ConfLine>, i: nat, name: string)
    requires i < |conf| && conf[i].Assign?
    ensures ConfAfter(conf[i..], name) == ConfAfter(conf[i + 1..], name)
  {
    assert conf[i..][1..] == conf[i + 1..];
  }

  lemma ConfEntriesCons(conf: seq<ConfLine>, i: nat)
    requires i < |conf| && conf[i].Assign?
    ensures ConfEntries(conf[i..]) == [(conf[i].key, conf[i].value)] + ConfEntries(conf[i + 1..])
  {
    assert conf[i..][1..] == conf[i + 1..];
  }

  /** The certificate's subject alternative names are exactly the domain, `localhost` and
      `127.0.0.1`, whatever the domain is. */
  lemma ExtensionAltNames(domain: string)
    requires IsToken(domain)
    ensures Section(ExtensionText(domain), "alt_names") ==
      [("DNS.1", domain), ("DNS.2", "localhost"), ("IP.1", "127.0.0.1")]
  {
    ExtensionWellFormed(domain);
    SectionReadsBack(ExtensionConf(domain), "alt_names");
    ExtensionAltEntries(domain);
  }

  lemma ExtensionAltEntries(domain: string)
    ensures ConfEntries(ConfAfter(ExtensionConf(domain), "alt_names")) ==
      [("DNS.1", domain), ("DNS.2", "localhost"), ("IP.1", "127.0.0.1")]
  {
    var c := ExtensionConf(domain);
    ExtensionAltHeader(domain);
    assert c[8..] == [];
    ConfEntriesCons(c, 7);
    ConfEntriesCons(c, 6);
    ConfEntriesCons(c, 5);
  }

  // ---------------------------------------------------------------- the CSR subject

  /** A component that reads back as written: no `/` anywhere, no `=` in its type. */
  predicate RdnWellFormed(r: Rdn) {
    '/' !in r.typ && '=' !in r.typ && '/' !in r.value
  }

  function RdnTexts(rdns: seq<Rdn>): (r: seq<string>)
    ensures |r| == |rdns| && forall i :: 0 <= i < |rdns| ==> r[i] == RdnText(rdns[i])
  {
    if rdns == [] then [] else [RdnText(rdns[0])] + RdnTexts(rdns[1..])
  }

  /** The value of the last component of type `key`. */
  function LastValue(rdns: seq<Rdn>, key: string): Option<string> {
    if rdns == [] then None
    else if rdns[|rdns| - 1].typ == key then Some(rdns[|rdns| - 1].value)
    else LastValue(rdns[..|rdns| - 1], key)
  }

  lemma RdnTextNoSlash(r: Rdn)
    requires RdnWellFormed(r)
    ensures '/' !in RdnText(r)
  {
    var t := RdnText(r);
    forall i | 0 <= i < |t|
      ensures t[i] != '/'
    {
      if i < |r.typ| {
        assert t[i] == r.typ[i];
      } else if i > |r.typ| {
        assert t[i] == r.value[i - |r.typ| - 1];
      }
    }
  }

  /** A subject string splits back into its components. */
  lemma {:induction false} ComponentsReadBack(rdns: seq<Rdn>)
    requires rdns != [] && forall i :: 0 <= i < |rdns| ==> RdnWellFormed(rdns[i])
    ensures Components(SubjectText(rdns)) == RdnTexts(rdns)
  {
    var t0, rest := RdnText(rdns[0]), SubjectText(rdns[1..]);
    var s := SubjectText(rdns);
    assert s == "/" + t0 + rest;
    assert s[1..] == t0 + rest;
    RdnTextNoSlash(rdns[0]);
    if rdns[1..] == [] {
      assert s[1..] == t0;
      SplitOnLast(t0, '/');
    } else {
      ComponentsReadBack(rdns[1..]);
      assert rest == ['/'] + rest[1..];
      assert s[1..] == t0 + ['/'] + rest[1..];
      SplitOnPiece(t0, '/', rest[1..]);
    }
  }

  /** Looking a type up in the split components finds the last component of that type. */
  lemma {:induction false} AttributeReadBack(rdns: seq<Rdn>, key: string)
    requires forall i :: 0 <= i < |rdns| ==> RdnWellFormed(rdns[i])
    ensures Attribute(RdnTexts(rdns), key) == LastValue(rdns, key)
    decreases |rdns|
  {
    if rdns != [] {
      var init := rdns[..|rdns| - 1];
      RdnTextsInit(rdns);
      AttributeLast(RdnTexts(rdns), key, rdns[|rdns| - 1]);
      AttributeReadBack(init, key);
    }
  }

  lemma RdnTextsInit(rdns: seq<Rdn>)
    requires rdns != []
    ensures RdnTexts(rdns)[..|rdns| - 1] == RdnTexts(rdns[..|rdns| - 1])
  {
  }

  /** Looking a type up checks the last component first. */
  lemma AttributeLast(cs: seq<string>, key: string, r: Rdn)
    requires cs != [] && cs[|cs| - 1] == RdnText(r) && RdnWellFormed(r)
    ensures Attribute(cs, key) ==
      if r.typ == key then Some(r.value) else Attribute(cs[..|cs| - 1], key)
  {
    RdnTextSplits(r);
  }

  /** A component splits at its first `=` into its type and value. */
  lemma RdnTextSplits(r: Rdn)
    requires RdnWellFormed(r)
    ensures var t := RdnText(r);
      '=' in t && t[..IndexOf(t, '=')] == r.typ && t[IndexOf(t, '=') + 1..] == r.value
  {
    var t := RdnText(r);
    assert t == r.typ + ['='] + r.value;
    IndexOfAfter(r.typ, '=', r.value);
    assert t[..|r.typ|] == r.typ;
    assert t[|r.typ| + 1..] == r.value;
  }

  lemma CsrRdnsWellFormed(domain: string)
    requires '/' !in domain
    ensures forall i :: 0 <= i < |CsrRdns(domain)| ==> RdnWellFormed(CsrRdns(domain)[i])
  {
  }

  /** The CSR names the server unit of the local organisation, with the domain as its
      common name, provided the domain contains no `/`. */
  lemma CsrSubjectComponents(domain: string)
    requires '/' !in domain
    ensures Components(CsrSubject(domain)) ==
      ["C=CN", "ST=Local", "L=Local", "O=Local Dev", "OU=Server", "CN=" + domain]
    ensures Attribute(Components(CsrSubject(domain)), "CN") == Some(domain)
    ensures Attribute(Components(CsrSubject(domain)), "OU") == Some("Server")
  {
    CsrRdnsWellFormed(domain);
    ComponentsReadBack(CsrRdns(domain));
    CsrTexts(domain);
    AttributeReadBack(CsrRdns(domain), "CN");
    AttributeReadBack(CsrRdns(domain), "OU");
    CsrLastValues(domain);
  }

  lemma CsrTexts(domain: string)
    ensures RdnTexts(CsrRdns(domain)) ==
      ["C=CN", "ST=Local", "L=Local", "O=Local Dev", "OU=Server", "CN=" + domain]
  {
    var ts := RdnTexts(CsrRdns(domain));
    assert ts[0] == "C=CN";
    assert ts[1] == "ST=Local";
    assert ts[2] == "L=Local";
    assert ts[3] == "O=Local Dev";
    assert ts[4] == "OU=Server";
    assert ts[5] == "CN=" + domain;
  }

  lemma CsrLastValues(domain: string)
    ensures LastValue(CsrRdns(domain), "CN") == Some(domain)
    ensures LastValue(CsrRdns(domain), "OU") == Some("Server")
  {
    var c := CsrRdns(domain);
    assert c[..5][..4] == c[..4];
    assert c[..6] == c;
  }
}
