# A verified model of the Lean 4 release-mirror scripts

The repository sets up a local mirror of the Lean 4 toolchain release server. It does four things:

- It creates a local root certificate authority and installs it into the system trust store.
- It writes the leaf certificate's extension file and signing-request subject.
- It maps the release domain to `127.0.0.1` in `/etc/hosts`.
- It serves the release manifest `data.json` and the toolchain archives over TLS from a small static file server.

A cleanup script undoes the trust-store and hosts-file changes.

This project models the logic of these steps in Dafny and proves what each step promises:

- **`Strings`**: the Python string operations the scripts rely on.
  - `str.split()` splits on whitespace, and `str.strip().startswith("#")` tests for a comment.
  - `str.splitlines()` splits lines, and `"\n".join` joins them.
  - `str.split(sep)` splits on one character, and `str(n)` writes a natural number in decimal.
- **`Hosts`**: the hosts-file reconciliation.
  - Adding: the `ensure_hosts_entry` presence scan, and the privileged `grep -qw … || echo … >>` append, kept distinct from the scan; both as written and with the corrected guard.
  - Removing: the `remove_hosts_entry` line filter and the rewrite of the file.
  - A `HostsFile` class whose methods are the operations. It includes the exit when a privileged command fails, and the uncaught `UnicodeDecodeError` when the file is not valid UTF-8.
- **`Shell`**: `run_command` as the provisioning steps depend on it.
  - A command succeeds or fails, and its effect on the set of existing files is recorded.
  - A failure with `check=True` ends the process; one with `check=False` is ignored.
  - The trace records every command run.
- **`Provisioning`**: the root CA and the system trust store, as a `Host` class (directories, files, command log).
  - `ensure_root_ca` creates the CA only when it is missing.
  - `add_root_ca_to_system_trust` dispatches on which directory exists: Debian first, then p11-kit, otherwise nothing.
  - `remove_trusted_ca` probes one Debian name and three p11-kit names.
- **`LeafCert`**: the text of `server.ext` and the CSR subject, both built from the domain.
  - Each is read back by a simplified reader of OpenSSL's formats: `key = value` lines under `[section]` headers, and `/type=value` name components.
  - This fixes the subject alternative names and the common name.
- **`Paths`**: how a request path becomes a file path.
  - `lstrip("/")`, then `unquote`, then the join to the root.
  - Lexical resolution: `.` dropped, `..` pops, and an absolute right-hand side replaces the root.
  - The string-prefix containment test, characterised exactly.
- **`Server`**: the request handler.
  - `do_GET` as a decision function over a file tree. A decoded NUL character makes `resolve()` raise, and then no answer is sent.
  - What `do_GET`, `_send_file` and `list_directory` write to the connection and to the log (error messages and access lines), including the failure path of `_send_file`.
  - A `Handler` class whose methods produce exactly that output.
- **`Manifest`**: the release manifest.
  - `Release.from_json` and `Release.to_json`; `to_json` is a method that builds the asset list in the nested architecture × extension loops.
  - `data_gen`'s filing of the release under its channel.
  - The configured release from `lib/config.py`.

Three behaviours of the code worth knowing:

- The request path has *every* leading `/` removed and is percent-decoded *afterwards*. A `%2F` right after the slashes therefore makes the joined path absolute (`Server.EncodedSlashIsAbsolute`).
- When `_send_file` fails after the headers are out and the stream is still open, a 500 error page is still sent after the 200 status line (`Server.ErrorAfterHeaders`).
- On a p11-kit host, the anchor is installed under the certificate's own file name (`rootCA.pem`), not under `local-root-ca.crt`.

## Model

| member | source | states |
|---|---|---|
| Strings.TrimLeft | lib/add_ca.py:114-115 | the result is a suffix of the input that starts with no whitespace, and only whitespace was removed before it |
| Strings.TokenLength | lib/clean.py:60 | the first token runs up to the first whitespace character or the end of the text |
| Strings.Split | lib/clean.py:60 | every token `str.split()` yields is non-empty and contains no whitespace |
| Strings.SplitToken | lib/add_ca.py:117 | a token followed by whitespace or the end of the text is the first token, and splitting continues after it |
| Strings.SplitLeadingSpace | lib/add_ca.py:117 | leading whitespace yields no token |
| Strings.SplitOn | lib/data_gen.py:72 | `split(sep)` yields at least one piece, and no piece contains the separator |
| Strings.SplitOnPiece | lib/data_gen.py:72 | text without the separator followed by the separator is the first piece |
| Strings.SplitOnLast | lib/data_gen.py:72 | text without the separator is the only piece |
| Strings.SplitLines | lib/clean.py:46 | no line `splitlines()` yields contains a line break |
| Strings.SplitLinesTerminated | lib/clean.py:70 | lines without line breaks, each followed by a newline, split back into exactly those lines |
| Strings.JoinThenNewline | lib/clean.py:70 | `"\n".join(lines) + "\n"` is each line followed by a newline |
| Strings.SplitLinesAppend | lib/add_ca.py:125 | text appended after a complete last line adds its own lines after the existing ones, unless a `\r` would pair with a following `\n` |
| Strings.SplitLinesFromNewline | lib/add_ca.py:125 | a newline that ends an unterminated last line adds no line |
| Strings.FirstLineOf | lib/clean.py:46 | the first line of a text is its content up to the first line break, and the remaining lines are those of the text after that break |
| Strings.DecimalString | lib/server.py:51 | `str(size)` is a non-empty string of decimal digits |
| Strings.DecimalRoundTrip | lib/server.py:51 | the decimal string of `n` reads back as `n` |
| Hosts.ScanForEntry | lib/add_ca.py:111-119 | the scan returns true exactly when some non-comment line has the domain as one of its whitespace tokens |
| Hosts.IsComment | lib/add_ca.py:114-115 | a line is a comment when its first non-whitespace character is `#` |
| Hosts.Maps | lib/clean.py:57-61 | a line maps the domain only when it is no comment and the domain is one of its whitespace tokens, so only a one-token domain is ever mapped |
| Hosts.Present | lib/add_ca.py:113-119 | the domain is present when some line maps it |
| Hosts.FilterLines | lib/clean.py:53-66 | `new_lines` are the kept lines, `drop_lines` the dropped ones, and `changed` holds exactly when some line maps the domain |
| Hosts.Kept | lib/clean.py:56-66 | every kept line is a line of the file that does not map the domain |
| Hosts.Dropped | lib/clean.py:60-64 | every dropped line is a line of the file that maps the domain |
| Hosts.KeptAndDroppedPartition | lib/clean.py:56-66 | every line is kept or dropped, never both and never lost: the counts add up and the two multisets make up the input |
| Hosts.KeptExactly | lib/clean.py:57-66 | a line is kept exactly when it does not map the domain, so every comment is kept verbatim; it is dropped exactly when it maps the domain |
| Hosts.KeptConcat | lib/clean.py:56-66 | the filter distributes over concatenation, so kept and dropped lines stay in their original relative order |
| Hosts.DroppedIffPresent | lib/clean.py:55-66 | the filter drops something exactly when the presence scan's test finds the domain |
| Hosts.KeptIdempotent | lib/clean.py:56-66 | filtering the kept lines again keeps all of them and drops nothing, and no kept line maps the domain |
| Hosts.SelectIdempotent | lib/clean.py:56-66 | selecting again with the same test changes nothing |
| Hosts.RewrittenReadsBack | lib/clean.py:68-70 | the rewritten file reads back as the kept lines (one empty line when none is kept), and a second filter drops nothing |
| Hosts.Rewritten | lib/clean.py:70 | the rewritten text always ends with a newline |
| Hosts.CommentedEntryBlocksAppend | lib/add_ca.py:113-126 | a file whose only line is a commented-out mapping is not present for the scan, yet the grep guard finds the domain and appends nothing |
| Hosts.AppendAsWritten | lib/add_ca.py:124-126 | the privileged append as written: nothing when `grep -qw` finds the domain anywhere, comments included, otherwise the entry and a newline after the text as it is (stated by `Hosts.EnsureAsWritten`) |
| Hosts.EnsureAsWritten | lib/add_ca.py:111-126 | as written, the file is unchanged exactly when the scan ran and found a mapping or the whole-word grep finds the domain; otherwise the entry and a newline are appended to the text as it is |
| Hosts.AsWrittenAgrees | lib/add_ca.py:111-126 | on a file that ends with a line break and in which grep finds no whole-word match, the guard as written and the corrected guard leave the same text |
| Hosts.CommentNeverPresent | lib/add_ca.py:114-116 | a line starting with `#` never maps a domain |
| Hosts.GrepFindsWord | lib/add_ca.py:125 | `grep -w` finds a word that stands between non-word characters on one line |
| Hosts.UnterminatedCommentSwallowsEntry | lib/add_ca.py:124-126 | as written, an entry appended after an unterminated comment line becomes part of that comment, so the domain stays unmapped |
| Hosts.Terminate | lib/add_ca.py:124-126 | afterwards the text is empty or ends in `\n`, as `grep` and the resolver end lines, and begins with the old text; `splitlines` reads the same lines, plus one empty line when the old text ended in a break other than `\n` or `\r` |
| Hosts.AppendIfAbsent | lib/add_ca.py:109-126 | a file whose lines already map the domain is unchanged; otherwise the old text is kept and the entry follows as a line of its own, after a `\n` or at the start of the file; it reads back as the old lines (plus the empty line `Hosts.Terminate` describes) and the entry, and afterwards the domain is mapped |
| Hosts.AppendedEntryReadsBack | lib/add_ca.py:124-126 | the old text stays a prefix, the entry follows a `\n` or starts the file, and it reads back as one new last line that maps the domain |
| Hosts.EntryMaps | lib/add_ca.py:109-117 | the entry `127.0.0.1  <domain>` is no comment and splits into exactly `127.0.0.1` and the domain |
| Hosts.HostsFile.constructor | lib/clean.py:9 | a hosts file that does not exist has no text and counts as valid UTF-8; whether `sudo` succeeds on the host is fixed |
| Hosts.HostsFile.EnsureEntryAsWritten | lib/add_ca.py:106-127 | as written: the call survives exactly when the read does not raise `UnicodeDecodeError` and either `sudo` works or the scan found a mapping; on survival the file exists and holds the as-written result; on exit nothing changed |
| Hosts.HostsFile.EnsureEntry | lib/add_ca.py:106-127 | with the corrected guard: the call survives exactly when the read does not raise `UnicodeDecodeError` and either `sudo` works or the scan found a mapping; on survival the file exists and gains the entry line only when no line mapped the domain, after which the domain is mapped; on exit nothing changed |
| Hosts.HostsFile.RemoveEntry | lib/clean.py:41-76 | a missing or unreadable file is reported and left alone; a file that is not valid UTF-8 ends the process unchanged; a file mapping nothing is left alone; otherwise, if the privileged copy succeeds, the file is rewritten without the mapping lines, those lines are returned, and the rewritten file maps the domain nowhere, and if it fails the process exits with the file unchanged |
| Shell.RunStep | lib/utils.py:6-18 | a command runs only while the process is alive and is logged; the process survives the command exactly when it succeeds or is unchecked, so a failing checked command ends it; files change only through a successful command |
| Shell.RunConcat | lib/utils.py:6-18 | running two command lists in sequence is running their concatenation |
| Shell.RunAfterExit | lib/utils.py:16-17 | after the process exits, no later command runs |
| Shell.DeleteThenRefresh | lib/clean.py:28-32 | a delete followed by refresh commands removes exactly that file, and nothing happens once the process has exited |
| Shell.RefreshKeepsFiles | lib/clean.py:29-32 | trust-store refresh commands change no file |
| Provisioning.RootCaCreates | lib/add_ca.py:14-28 | if the process survives `ensure_root_ca`, key and certificate exist and no other file was created or removed |
| Provisioning.RootCaSecondCallReuses | lib/add_ca.py:14-16 | a second `ensure_root_ca` after a surviving first one runs no command |
| Provisioning.RootCaSteps | lib/add_ca.py:14-26 | `ensure_root_ca` runs no command exactly when key and certificate both exist, and every command it runs is checked |
| Provisioning.ConventionOf | lib/add_ca.py:81-93 | Debian is chosen exactly when its directory exists; p11-kit exactly when only the p11-kit directory exists |
| Provisioning.InstallSteps | lib/add_ca.py:81-93 | install runs no command exactly on an unsupported host, and otherwise starts with a checked copy |
| Provisioning.InstallEffect | lib/add_ca.py:81-93 | on an unsupported host nothing runs; otherwise a surviving install adds exactly the convention's anchor; on p11-kit the process survives whenever the copy succeeds, whatever the refresh commands do |
| Provisioning.RefreshSurvives | lib/add_ca.py:88-90 | commands run with `check=False` never end the process |
| Provisioning.InstallTwice | lib/add_ca.py:82-87 | installing twice leaves the same files as installing once |
| Provisioning.P11KitRemoveConcat | lib/clean.py:24-33 | probing two lists of names runs the commands of the first probes, then those of the second |
| Provisioning.RemoveSteps | lib/clean.py:13-33 | the commands removal runs: the Debian probe, then the three p11-kit probes in order, each deleting an existing file and refreshing (its effect is `Provisioning.RemoveClears`) |
| Provisioning.P11KitRemoveClears | lib/clean.py:24-33 | the p11-kit loop, if the process survives, removes exactly the probed names' files |
| Provisioning.RemoveClears | lib/clean.py:12-38 | removal, if the process survives, leaves none of the four anchors and changes no other file |
| Provisioning.RemoveAgainFindsNothing | lib/clean.py:12-38 | a second removal after a surviving one runs no command |
| Provisioning.NoAnchorNoSteps | lib/clean.py:24-26 | with no probed file present, the p11-kit loop runs no command |
| Provisioning.InstallThenRemove | lib/clean.py:12-38 | install followed by removal leaves the files present before install, minus the anchors, when the certificate's name is one removal probes |
| Provisioning.AnchorsMet | lib/clean.py:13-33 | some anchor exists exactly when the Debian name or one of the three p11-kit names exists |
| Provisioning.Host.constructor | lib/add_ca.py:79-80 | a host starts with the given directories and files and an empty command log |
| Provisioning.Host.RunCommand | lib/utils.py:6-18 | one command changes files, log and liveness exactly as `run_command` does, and leaves the directories alone |
| Provisioning.Host.RunCommands | lib/utils.py:6-18 | commands run in order and stop at the first that ends the process |
| Provisioning.Host.EnsureRootCa | lib/add_ca.py:9-28 | the key and certificate paths in the workspace are returned; when both existed nothing runs and nothing changes; after a surviving run exactly those two files have been added |
| Provisioning.Host.AddRootCaToSystemTrust | lib/add_ca.py:75-94 | the branch is chosen by directory existence; an unsupported host is left alone; a surviving install adds exactly the convention's anchor |
| Provisioning.Host.RemoveDebianAnchor | lib/clean.py:15-21 | the Debian anchor is found exactly when it exists, and a surviving probe removes it and nothing else |
| Provisioning.Host.RemoveP11KitAnchor | lib/clean.py:25-33 | one p11-kit name is found exactly when its file exists, and a surviving probe removes that file and nothing else |
| Provisioning.Host.RemoveTrustedCa | lib/clean.py:12-38 | on survival none of the four anchors remains, no other file changed, and `removed` holds exactly when one of them existed |
| LeafCert.LineReadsBack | lib/add_ca.py:45-53 | each well-formed line of the extension file reads back as what it was written as: an assignment as its key and value, a header as a header |
| LeafCert.ExtensionText | lib/add_ca.py:45-53 | the text written to `server.ext`, line by line (its reading is `LeafCert.ExtensionDefaultSection` and `LeafCert.ExtensionAltNames`) |
| LeafCert.CsrSubject | lib/add_ca.py:57 | the `-subj` argument of the CSR (its reading is `LeafCert.CsrSubjectComponents`) |
| LeafCert.HeaderMatches | lib/add_ca.py:49 | a line reads as the header `[name]` exactly when it was written as that header |
| LeafCert.EntriesRendered | lib/add_ca.py:45-53 | the assignments read before the first header are the ones written there |
| LeafCert.AfterHeaderRendered | lib/add_ca.py:49-52 | the lines read after a header are the lines written after it |
| LeafCert.TextLines | lib/add_ca.py:45-54 | the written text splits back into the rendered lines |
| LeafCert.DefaultSectionReadsBack | lib/add_ca.py:45-48 | the leading section of any well-formed config reads back as written |
| LeafCert.SectionReadsBack | lib/add_ca.py:49-52 | any named section of a well-formed config reads back as written |
| LeafCert.ExtensionWellFormed | lib/add_ca.py:45-53 | every line of the extension file is well formed for a domain that is one token |
| LeafCert.ExtensionDefaultSection | lib/add_ca.py:45-48 | the leaf is no CA (`basicConstraints=CA:FALSE`), has the key usages `critical, digitalSignature, keyEncipherment`, serves TLS, and takes its names from `[alt_names]` |
| LeafCert.ExtensionAltNames | lib/add_ca.py:49-52 | the subject alternative names are exactly `DNS.1` = the domain, `DNS.2` = `localhost` and `IP.1` = `127.0.0.1` |
| LeafCert.ComponentsReadBack | lib/add_ca.py:57 | a `/`-led subject splits back into the components it was written from |
| LeafCert.AttributeReadBack | lib/add_ca.py:57 | the value read for a type is the last value written for it |
| LeafCert.CsrSubjectComponents | lib/add_ca.py:57 | the CSR subject reads back as C, ST, L, O, OU=Server and CN=domain, with common name the domain |
| Paths.LStripSlashes | lib/server.py:24 | every leading `/` is removed, not just one, and nothing else |
| Paths.Unquote | lib/server.py:24 | `unquote` never lengthens the text |
| Paths.UnquoteEscape | lib/server.py:24 | a `%` followed by two hex digits decodes to the character of that byte, whatever follows |
| Paths.UnquoteKeeps | lib/server.py:24 | any other character, a `%` without two hex digits after it included, is kept |
| Paths.UnquoteQuote | lib/server.py:24 | decoding undoes `urllib.parse.quote`: every ASCII path a client encodes comes back as written |
| Paths.Join | lib/server.py:25 | `root / rel` is `rel` itself when `rel` is absolute, otherwise `rel` below the root (its consequences are `Paths.ResolveJoin` and `Server.EncodedSlashIsAbsolute`) |
| Paths.UnquotePlain | lib/server.py:24 | text without `%` decodes to itself |
| Paths.UnquoteEncodedSlash | lib/server.py:24 | `%2F` and `%2f` decode to `/` |
| Paths.Resolve | lib/server.py:25 | a resolved path consists of names only: none empty, `.` or `..`, none containing `/` |
| Paths.ResolveRendered | lib/server.py:25-27 | resolving the string of a resolved path gives it back |
| Paths.ContainedIffUnder | lib/server.py:27 | a resolved target starts with the root's string plus `/` exactly when it lies strictly below the root |
| Paths.ResolveJoin | lib/server.py:25 | resolving `root / rel` for a relative `rel` walks `rel`'s parts from the root |
| Paths.NoParentStaysBelow | lib/server.py:25 | a walk without `..` never leaves the directory it starts in |
| Server.Route | lib/server.py:19-44 | `""` and `"/"` always yield the manifest as JSON; any other path gets no answer exactly when its decoded form holds a NUL character, on which `resolve()` raises; every refusal is a 404 |
| Server.Target | lib/server.py:24-25 | the target of a request path is a resolved path: names only |
| Server.Decide | lib/server.py:27-44 | the decision after resolution refuses only with 404, and serves only a path present in the tree |
| Server.ContainmentTest | lib/server.py:27 | the containment test accepts exactly the targets strictly inside the root, so the root itself and siblings like `<root>2` fail |
| Server.RouteStaysInside | lib/server.py:24-44 | a file served for any other path lies strictly inside the root and exists |
| Server.DecideStaysInside | lib/server.py:27-44 | whatever the decision serves lies strictly inside the root and exists |
| Server.RouteOutside | lib/server.py:27-29 | a target outside the root is refused with 404, unless the decoded path holds NUL and no answer is sent |
| Server.RouteDirectory | lib/server.py:30-37 | a directory is served only through its `data.json`, as JSON, and is refused with 404 without one (no answer for a decoded NUL) |
| Server.RouteFile | lib/server.py:38-42 | an existing file is served with the guessed type, or `application/octet-stream` when none is guessed (no answer for a decoded NUL) |
| Server.RouteMissing | lib/server.py:43-44 | a target that does not exist is refused with 404, unless the decoded path holds NUL and no answer is sent |
| Server.SlashesOnlyRefused | lib/server.py:24-29 | a `self.path` of two or more slashes strips to the root itself and is refused |
| Server.FilesystemRootRefusesAll | lib/server.py:27-29 | a server rooted at `/` refuses every path other than the manifest's (no answer for a decoded NUL) |
| Server.NulByteGetsNoAnswer | lib/server.py:24-25 | a request for `/%00…` gets no answer, since its decoded path holds NUL |
| Server.EncodedSlashIsAbsolute | lib/server.py:24-25 | `/%2F…` decodes after stripping to an absolute path that replaces the root |
| Server.PlainRequestStaysBelow | lib/server.py:24-25 | a path without escapes and without `..` parts resolves below the root |
| Server.SendComplete | lib/server.py:48-55 | a complete send is status 200, the content type, a `Content-Length` that reads back as the file's size, `Cache-Control: public, max-age=3600`, the end of the headers and the file's bytes; the log holds only the access line of the 200 |
| Server.ServerErrorIffFailedAndOpen | lib/server.py:47-59 | a failure is logged exactly when the send raises; a 500 goes out exactly when it raised and the stream is still open; the 200 is in the access log exactly when the file's size could be read |
| Server.ErrorAfterHeaders | lib/server.py:49-59 | a directory fails only once the headers are out, and a 500 follows the 200 status |
| Server.ResponseStartsWithStatus | lib/server.py:19-59 | every answer starts with a 200 status or an error page; nothing is written exactly when `do_GET` raised, and then nothing is logged and the connection ends |
| Server.SendFileSpec | lib/server.py:46-59 | what `_send_file` writes and logs for a missing file, a directory, a file the client breaks off, and a complete file (its properties are the four lemmas above) |
| Server.Handler.constructor | lib/server.py:12-13 | a handler starts with nothing written, nothing logged and an open stream |
| Server.Handler.SendError | lib/server.py:16 | an error page goes out; its message and then its access line are logged |
| Server.Handler.ListDirectory | lib/server.py:15-17 | a listing request gets a 403, whatever the directory, logged like every error |
| Server.Handler.SendFile | lib/server.py:46-59 | what is written, what is logged and whether the stream is closed are exactly those of the send's specification for the file at that path |
| Server.Handler.DoGet | lib/server.py:19-44 | what is written and logged is exactly the specification of the routing decision for the path; after the exception, nothing is written and the connection is closed |
| Manifest.FromJson | lib/data_gen.py:14-19 | a release exists exactly when all three keys do, and its fields are the values of `channel`, `version` and `time` |
| Manifest.FromJsonRoundTrip | lib/data_gen.py:14-19 | reading a release's configuration gives the release back |
| Manifest.Archives | lib/data_gen.py:24-34 | there is one archive per architecture and extension |
| Manifest.ToJsonSpec | lib/data_gen.py:21-102 | the JSON object of a release: name, creation time and assets (its properties are the lemmas below) |
| Manifest.AppendArchives | lib/data_gen.py:24-34 | the nested loops append exactly the ten archives after the assets given |
| Manifest.ToJson | lib/data_gen.py:21-102 | the method's result is the specified JSON object of the release |
| Manifest.AssetCount | lib/data_gen.py:23-97 | stable has 10 assets, every other channel 13 |
| Manifest.AssetOrder | lib/data_gen.py:24-97 | archives go architecture-major, `.tar.zst` before `.zip`, after `CMakeCache.txt`, `cmake_install.cmake` and `Makefile` in that order for beta and nightly |
| Manifest.UrlsEndWithName | lib/data_gen.py:33-96 | every URL is the download directory, `/` and the asset's name |
| Manifest.UrlPrefixes | lib/data_gen.py:33-96 | stable and beta download from `release.lean-lang.org/lean4/v<version>/`, nightly from the `lean4-nightly` release of its date |
| Manifest.NamesDistinct | lib/data_gen.py:24-97 | asset names within one release are pairwise distinct |
| Manifest.ArchiveNamesDistinct | lib/data_gen.py:31-32 | two different archive slots have different names |
| Manifest.ReleaseName | lib/data_gen.py:35-101 | `created_at` is the time; stable and beta are named `v<version>`, any other type `nightly-<date>` |
| Manifest.DataGen | lib/data_gen.py:105-107 | a release of a channel other than the three is an error; otherwise version `"1"`, exactly one release in all, and it is in its own channel |
| Manifest.ChannelOf | lib/data_gen.py:106-107 | the array of the manifest a channel key names |
| Manifest.ConfiguredManifest | lib/config.py:1 | the configured release is stable 4.22.0, filed under `stable` alone, named `v4.22.0`, with 10 assets |

## Left out

- `main.py`: process orchestration, sleeping and the interactive loop.
- `lib/mirror_gen.py`: directory creation and a file copy.
- `rm_dir_recursive` and `delete_mirror_data`: filesystem plumbing.
- `run_command`: the shell itself is not modelled. Whether a command fails is a parameter, the set of failing commands.
- The openssl invocations of `ensure_root_ca` and `generate_server_certificate`: recorded as opaque commands with their file effects. Key generation, signing, certificate parsing and `verify_certificate` are not modelled.
- The order and effects of the commands that sign the leaf certificate are not modelled. Only the text it is built from is.
- Every `print`: diagnostics only.
- The writes of `server.ext` and of the manifest's JSON file, and JSON formatting: the model produces the values written.
- `lib/server.py` `main`: argument parsing, the TLS context and the threading server.
- Concurrency between requests: each request is modelled on its own.
- `mimetypes.guess_type`: a parameter of the handler, an arbitrary function from path strings to optional types.
- `send_response`'s `Server` and `Date` headers, and failures while writing headers: not modelled.
- Server.SlashesOnlyRefused: states what `do_GET` does with a `self.path` of slashes only. Python 3.12's `parse_request`, which runs first, rewrites a request path starting with `//` to `/` followed by the path without its leading slashes. So a request for `//` reaches `do_GET` as `/` and is served the manifest. `parse_request` is not part of this model.
- Server.Route: for a decoded path holding NUL, the traceback `socketserver` prints for the exception is not modelled. The model records only that the handler writes and logs nothing and that the connection ends.
- Server.SendComplete: an access line is modelled by its status code only. The request line and the response size that `log_request` also writes are not modelled.
- Resolution is lexical: symbolic links are not followed. The containment results hold for that abstraction only.
- Paths.Unquote decodes an escaped byte of 0x80 or above to U+FFFD on its own. It does not combine multi-byte UTF-8 sequences.
- Temporary-file handling when `remove_hosts_entry` rewrites the file: the rewrite is modelled as the file's new text. A failing unprivileged write of `/tmp/hosts.cleaned` or `rm` of it is not modelled.
- The privileged append running as root while the scan runs unprivileged: both see the same text in the model.
- Hosts.HostsFile.EnsureEntry: uses the corrected append guard `AppendIfAbsent`, not the grep guard as written. The behaviour as written is `Hosts.HostsFile.EnsureEntryAsWritten`.
- Hosts.HostsFile: the contents of a hosts file that is not valid UTF-8 are not modelled. A flag records only that reading it raises.
- Hosts.GrepWord: treats only `.` as a regular-expression metacharacter, and only ASCII letters, digits and `_` as word characters. Other metacharacters and locale-dependent word characters of `grep` are not modelled. The fixed domain uses neither.
- Hosts.AppendIfAbsent: states that the entry reads back as a new line mapping the domain only for a domain that is one whitespace token.
- Hosts.HostsFile.EnsureEntry: states that the file afterwards maps the domain only for a domain that is one whitespace token.
- LeafCert.Section: a simplified reader of OpenSSL's config format. It does not cut a line at `#`, expand `$` variables, or process quotes and backslash escapes.
- LeafCert.ExtensionDefaultSection: proved only for a domain that is one whitespace token, so that it contains no line break or surrounding blanks.
- LeafCert.ExtensionAltNames: proved only for a domain that is one whitespace token. It is stated for the simplified reader. For a domain containing `#`, `$`, a quote or a backslash, OpenSSL would read a different value (for `x#y` it reads `DNS.1 = x`).
- LeafCert.CsrSubjectComponents: proved only for a domain without `/`, since a `/` would split the subject into extra components. It is stated for a simplified reader that ignores OpenSSL's `\` escapes and the `+` separator of multi-valued components, so it does not cover a domain containing either.
- Provisioning.InstallThenRemove: requires the certificate's file name to be one of the names removal probes, as `rootCA.pem` is.

## Findings

| source | as written | input that shows it | evidently intended | confidence | as-written member | corrected member |
|---|---|---|---|---|---|---|
| lib/add_ca.py:124-126 | the write-time guard is `grep -qw '<domain>' /etc/hosts`, which also matches comment lines, although the scan just before skipped comments | `/etc/hosts` holding only `# 127.0.0.1 release.lean-lang.org`: the scan finds no mapping, the grep finds the word, and nothing is appended | append whenever no non-comment line maps the domain, using the scan's own test | not executed | Hosts.CommentedEntryBlocksAppend | Hosts.AppendIfAbsent |
| lib/add_ca.py:124-126 | `echo '<entry>' >> /etc/hosts` appends directly after the last character of the file | `/etc/hosts` holding `# local` without a final newline: the entry is glued onto the comment line, and the domain stays unmapped | the entry always starts a line of its own, after a `\n` | not executed | Hosts.UnterminatedCommentSwallowsEntry | Hosts.Terminate |
