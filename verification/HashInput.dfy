/** lib/subprocess_cache.py: the byte string `_compute_hash` feeds to SHA-256. */
module HashInput {
  import opened Framing
  import opened Options

  /** A hashed file: its path and its bytes, or none when it cannot be read. */
  datatype InputFile = InputFile(path: Bytes, content: Option<Bytes>)

  /** What one call hashes: the encoded tool version, the arguments, and the files in the
      order they are fed (sorted inputs, then sorted configs). */
  datatype Input = Input(toolVersion: Bytes, cmd: seq<Bytes>, files: seq<InputFile>)

  function Contribution(f: InputFile): Bytes {
    if f.content.Some? then f.content.value else []
  }

  function Join(args: seq<Bytes>): Bytes {
    if args == [] then [] else if |args| == 1 then args[0] else args[0] + [NUL] + Join(args[1..])
  }

  function EncodeFile(f: InputFile): Bytes {
    Ascii("file=") + (f.path + [NEWLINE] +
    (Ascii("len=") + (Decimal(|Contribution(f)|) + [NEWLINE] + (Contribution(f) + [NEWLINE]))))
  }

  function EncodeFiles(files: seq<InputFile>): Bytes {
    if files == [] then [] else EncodeFile(files[0]) + EncodeFiles(files[1..])
  }

  function Encode(i: Input): Bytes {
    Ascii("tool_version=") + (i.toolVersion + [NEWLINE] +
    (Ascii("cmd=") + (Join(i.cmd) + [NEWLINE] + EncodeFiles(i.files))))
  }

  lemma {:induction false} EncodeFilesAppend(files: seq<InputFile>, f: InputFile)
    ensures EncodeFiles(files + [f]) == EncodeFiles(files) + EncodeFile(f)
  {
    hide EncodeFile;
    if files == [] {
      assert EncodeFiles([f][1..]) == [];
    } else {
      EncodeFilesAppend(files[1..], f);
      assert (files + [f])[1..] == files[1..] + [f];
    }
  }

  lemma EncodeFileFlat(f: InputFile)
    ensures Ascii("file=") + f.path + [NEWLINE] + (Ascii("len=") + Decimal(|Contribution(f)|) + [NEWLINE])
      + Contribution(f) + [NEWLINE] == EncodeFile(f)
  {
  }

  /** The successive `h.update(...)` calls, into a buffer. */
  method FeedHash(i: Input) returns (fed: Bytes)
    ensures fed == Encode(i)
  {
    hide EncodeFile, EncodeFiles, Decimal;
    fed := Ascii("tool_version=") + i.toolVersion + [NEWLINE];
    fed := fed + Ascii("cmd=");
    fed := fed + Join(i.cmd);
    fed := fed + [NEWLINE];
    ghost var lead := fed;
    EncodeNoFiles();
    for n := 0 to |i.files|
      invariant fed == lead + EncodeFiles(i.files[..n])
    {
      fed := FeedFile(fed, i.files[n]);
      assert i.files[..n + 1] == i.files[..n] + [i.files[n]];
      EncodeFilesAppend(i.files[..n], i.files[n]);
    }
    assert i.files[..|i.files|] == i.files;
  }

  lemma EncodeNoFiles()
    ensures EncodeFiles([]) == []
  {
  }

  /** One pass of the file loop. */
  method FeedFile(before: Bytes, f: InputFile) returns (fed: Bytes)
    ensures fed == before + EncodeFile(f)
  {
    hide EncodeFile, Decimal;
    var content := if f.content.Some? then f.content.value else [];
    fed := before + (Ascii("file=") + f.path + [NEWLINE]);
    fed := fed + (Ascii("len=") + Decimal(|content|) + [NEWLINE]);
    fed := fed + content;
    fed := fed + [NEWLINE];
    EncodeFileFlat(f);
  }

  /** One call, byte for byte: version "1", command "a" and "b", file "p" holding one byte 7. */
  lemma CallBytes(i: Input)
    requires i == Input([49], [[97], [98]], [InputFile([112], Some([7]))])
    ensures Encode(i) ==
      [116, 111, 111, 108, 95, 118, 101, 114, 115, 105, 111, 110, 61] + [49, 10]
      + [99, 109, 100, 61] + [97, 0, 98, 10]
      + [102, 105, 108, 101, 61] + [112, 10] + [108, 101, 110, 61] + [49, 10] + [7, 10]
  {
    Labels();
    assert i.cmd[1..] == [[98]] && Join(i.cmd) == [97, 0, 98];
    assert i.files[1..] == [] && Decimal(1) == [49];
    assert EncodeFiles(i.files) == EncodeFile(i.files[0]);
  }

  lemma Labels()
    ensures Ascii("tool_version=") == [116, 111, 111, 108, 95, 118, 101, 114, 115, 105, 111, 110, 61]
    ensures Ascii("cmd=") == [99, 109, 100, 61]
    ensures Ascii("file=") == [102, 105, 108, 101, 61] && Ascii("len=") == [108, 101, 110, 61]
  {
  }

  // ---- the reader ---------------------------------------------------------------

  /** A label, then the rest of its line. */
  function ReadField(lead: string, s: Bytes): Option<(Bytes, Bytes)> {
    match AfterLabel(Ascii(lead), s)
    case None => None
    case Some(t) => Cut(NEWLINE, t)
  }

  lemma ReadFieldOf(lead: string, line: Bytes, rest: Bytes)
    requires NEWLINE !in line
    ensures ReadField(lead, Ascii(lead) + (line + [NEWLINE] + rest)) == Some((line, rest))
  {
    AfterLabelOf(Ascii(lead), line + [NEWLINE] + rest);
    CutAt(NEWLINE, line, rest);
  }

  function SplitArgs(s: Bytes): seq<Bytes>
    decreases |s|
  {
    match Cut(NUL, s)
    case None => [s]
    case Some((a, rest)) => CutShrinks(NUL, s); [a] + SplitArgs(rest)
  }

  function DecodeFiles(s: Bytes): Option<seq<InputFile>>
    decreases |s|
  {
    if s == [] then Some([]) else
    match ReadField("file=", s)
    case None => None
    case Some((path, s1)) =>
      match ReadField("len=", s1)
      case None => None
      case Some((digits, s2)) =>
        match ReadDecimal(digits)
        case None => None
        case Some(n) =>
          if Decimal(n) != digits || |s2| <= n || s2[n] != NEWLINE || |s2| > |s| then None else
          match (if |s2[n + 1..]| < |s| then DecodeFiles(s2[n + 1..]) else None)
          case None => None
          case Some(fs) => Some([InputFile(path, Some(s2[..n]))] + fs)
  }

  function Decode(s: Bytes): Option<Input> {
    match ReadField("tool_version=", s)
    case None => None
    case Some((version, s1)) =>
      match ReadField("cmd=", s1)
      case None => None
      case Some((args, s2)) =>
        match DecodeFiles(s2)
        case None => None
        case Some(fs) => Some(Input(version, SplitArgs(args), fs))
  }

  // ---- unique decodability ----------------------------------------------------------

  predicate CleanPath(f: InputFile) { NEWLINE !in f.path }

  predicate CleanArg(a: Bytes) { NEWLINE !in a && NUL !in a }

  /** What framing relies on: one-line version, arguments and paths, NUL-free arguments. */
  predicate Clean(i: Input) {
    && NEWLINE !in i.toolVersion
    && (forall k :: 0 <= k < |i.cmd| ==> CleanArg(i.cmd[k]))
    && (forall k :: 0 <= k < |i.files| ==> CleanPath(i.files[k]))
  }

  /** What survives in the bytes: an unreadable file is an empty one, and no arguments at all
      is one empty argument. */
  function Canonical(i: Input): Input {
    Input(i.toolVersion, if i.cmd == [] then [[]] else i.cmd,
          CanonicalFiles(i.files))
  }

  function CanonicalFiles(files: seq<InputFile>): seq<InputFile> {
    if files == [] then []
    else [InputFile(files[0].path, Some(Contribution(files[0])))] + CanonicalFiles(files[1..])
  }

  lemma {:induction false} JoinIsLine(args: seq<Bytes>)
    requires forall k :: 0 <= k < |args| ==> CleanArg(args[k])
    ensures NEWLINE !in Join(args)
  {
    if |args| <= 1 {
    } else {
      JoinIsLine(args[1..]);
    }
  }

  lemma {:induction false} SplitJoin(args: seq<Bytes>)
    requires args != [] && forall k :: 0 <= k < |args| ==> CleanArg(args[k])
    ensures SplitArgs(Join(args)) == args
  {
    if |args| == 1 {
      CutNone(NUL, args[0]);
    } else {
      SplitJoin(args[1..]);
      CutAt(NUL, args[0], Join(args[1..]));
      assert [args[0]] + args[1..] == args;
    }
  }

  lemma FileRoundTrip(f: InputFile, rest: Bytes)
    requires CleanPath(f)
    ensures var s := EncodeFile(f) + rest;
      DecodeFiles(s) == match DecodeFiles(rest)
                        case None => None
                        case Some(fs) => Some([InputFile(f.path, Some(Contribution(f)))] + fs)
  {
    hide EncodeFiles, Decimal;
    var content := Contribution(f);
    DecimalReads(|content|);
    DecimalDigits(|content|, NEWLINE);
    var s2 := content + [NEWLINE] + rest;
    var s1 := Ascii("len=") + (Decimal(|content|) + [NEWLINE] + s2);
    var s := Ascii("file=") + (f.path + [NEWLINE] + s1);
    assert EncodeFile(f) + rest == s;
    ReadFieldOf("file=", f.path, s1);
    ReadFieldOf("len=", Decimal(|content|), s2);
    assert s2[..|content|] == content && s2[|content| + 1..] == rest;
  }

  lemma {:induction false} FilesRoundTrip(files: seq<InputFile>)
    requires forall k :: 0 <= k < |files| ==> CleanPath(files[k])
    ensures DecodeFiles(EncodeFiles(files)) == Some(CanonicalFiles(files))
  {
    if files == [] {
    } else {
      hide EncodeFile;
      FilesRoundTrip(files[1..]);
      FileRoundTrip(files[0], EncodeFiles(files[1..]));
    }
  }

  /** Everything the command's result may depend on is recoverable from the hashed bytes. */
  lemma DecodeEncode(i: Input)
    requires Clean(i)
    ensures Decode(Encode(i)) == Some(Canonical(i))
  {
    var files := EncodeFiles(i.files);
    var s1 := Ascii("cmd=") + (Join(i.cmd) + [NEWLINE] + files);
    JoinIsLine(i.cmd);
    ReadFieldOf("tool_version=", i.toolVersion, s1);
    ReadFieldOf("cmd=", Join(i.cmd), files);
    FilesRoundTrip(i.files);
    if i.cmd == [] { CutNone(NUL, []); } else { SplitJoin(i.cmd); }
  }

  lemma EncodeCanonical(i: Input)
    ensures Encode(Canonical(i)) == Encode(i)
  {
    EncodeCanonicalFiles(i.files);
    assert Join([[]]) == Join([]);
  }

  lemma {:induction false} EncodeCanonicalFiles(files: seq<InputFile>)
    ensures EncodeFiles(CanonicalFiles(files))
      == EncodeFiles(files)
  {
    if files == [] {
    } else {
      EncodeCanonicalFiles(files[1..]);
      assert CanonicalFiles(files)[1..] == CanonicalFiles(files[1..]);
    }
  }

  /** Two clean calls hash the same bytes exactly when they agree up to unreadable-is-empty
      and no-arguments-is-one-empty-argument. */
  lemma SameBytesIffSameInput(i: Input, j: Input)
    requires Clean(i) && Clean(j)
    ensures Encode(i) == Encode(j) <==> Canonical(i) == Canonical(j)
  {
    DecodeEncode(i);
    DecodeEncode(j);
    EncodeCanonical(i);
    EncodeCanonical(j);
  }

  // ---- what the reader accepts -------------------------------------------------------

  lemma ReadFieldInverts(lead: string, s: Bytes)
    requires ReadField(lead, s).Some?
    ensures var (line, rest) := ReadField(lead, s).value;
      NEWLINE !in line && s == Ascii(lead) + (line + [NEWLINE] + rest)
  {
    CutRejoins(NEWLINE, s[|Ascii(lead)|..]);
  }

  lemma {:induction false} SplitArgsInverts(s: Bytes)
    ensures SplitArgs(s) != [] && Join(SplitArgs(s)) == s
    ensures forall k :: 0 <= k < |SplitArgs(s)| ==> NUL !in SplitArgs(s)[k]
    ensures NEWLINE !in s ==> forall k :: 0 <= k < |SplitArgs(s)| ==> NEWLINE !in SplitArgs(s)[k]
    decreases |s|
  {
    match Cut(NUL, s)
    case None =>
      CutMissing(NUL, s);
    case Some((a, rest)) =>
      CutShrinks(NUL, s);
      CutRejoins(NUL, s);
      SplitArgsInverts(rest);
      assert SplitArgs(s)[1..] == SplitArgs(rest);
  }

  ghost predicate AllReadable(files: seq<InputFile>) {
    forall k :: 0 <= k < |files| ==> CleanPath(files[k]) && files[k].content.Some?
  }

  lemma {:induction false} DecodeFilesInverts(s: Bytes)
    requires DecodeFiles(s).Some?
    ensures AllReadable(DecodeFiles(s).value) && EncodeFiles(DecodeFiles(s).value) == s
    decreases |s|
  {
    hide EncodeFile, Decimal, ReadDecimal, ReadField;
    if s == [] {
    } else {
      var (path, s1) := ReadField("file=", s).value;
      var (digits, s2) := ReadField("len=", s1).value;
      var n := ReadDecimal(digits).value;
      var f, rest := InputFile(path, Some(s2[..n])), s2[n + 1..];
      ReadFieldInverts("file=", s);
      ReadFieldInverts("len=", s1);
      DecodeFilesInverts(rest);
      EncodeFileThen(f, rest);
      assert s2 == s2[..n] + [NEWLINE] + rest;
      assert DecodeFiles(s).value == [f] + DecodeFiles(rest).value;
      assert DecodeFiles(s).value[1..] == DecodeFiles(rest).value;
    }
  }

  lemma EncodeFileThen(f: InputFile, rest: Bytes)
    ensures EncodeFile(f) + rest == Ascii("file=") + (f.path + [NEWLINE] +
      (Ascii("len=") + (Decimal(|Contribution(f)|) + [NEWLINE] + (Contribution(f) + [NEWLINE] + rest))))
  {
  }

  lemma {:induction false} CanonicalReadable(files: seq<InputFile>)
    requires AllReadable(files)
    ensures CanonicalFiles(files) == files
  {
    if files == [] {
    } else {
      assert files == [files[0]] + files[1..];
      CanonicalReadable(files[1..]);
    }
  }

  /** Whatever the reader accepts is the encoding of one clean input, the one it returns. */
  lemma DecodeInverts(s: Bytes)
    requires Decode(s).Some?
    ensures var i := Decode(s).value; Clean(i) && Canonical(i) == i && Encode(i) == s
  {
    hide EncodeFiles, DecodeFiles, ReadField, SplitArgs, CanonicalFiles;
    var (version, s1) := ReadField("tool_version=", s).value;
    var (args, s2) := ReadField("cmd=", s1).value;
    ReadFieldInverts("tool_version=", s);
    ReadFieldInverts("cmd=", s1);
    SplitArgsInverts(args);
    DecodeFilesInverts(s2);
    CanonicalReadable(DecodeFiles(s2).value);
  }

  lemma {:induction false} CanonicalPaths(files: seq<InputFile>)
    ensures |CanonicalFiles(files)| == |files|
    ensures forall k :: 0 <= k < |files| ==> CanonicalFiles(files)[k].path == files[k].path
  {
    if files == [] {
    } else {
      CanonicalPaths(files[1..]);
    }
  }

  lemma CanonicalCleanIff(i: Input)
    ensures Clean(Canonical(i)) <==> Clean(i)
  {
    CanonicalPaths(i.files);
    if Clean(Canonical(i)) {
      assert forall k :: 0 <= k < |i.files| ==> CleanPath(Canonical(i).files[k]);
      assert i.cmd != [] ==> Canonical(i).cmd == i.cmd;
    }
  }

  /** The bytes determine the input exactly when version, arguments and paths are one-line and
      the arguments NUL-free. */
  lemma RecoverableIffClean(i: Input)
    ensures Decode(Encode(i)) == Some(Canonical(i)) <==> Clean(i)
  {
    if Clean(i) { DecodeEncode(i); }
    if Decode(Encode(i)) == Some(Canonical(i)) { DecodeInverts(Encode(i)); }
    CanonicalCleanIff(i);
  }

  /** Clean, and none of the two things the bytes blur: every file can be read, and there is at
      least one argument. */
  predicate Exact(i: Input) {
    Clean(i) && i.cmd != [] && forall k :: 0 <= k < |i.files| ==> i.files[k].content.Some?
  }

  lemma {:induction false} CanonicalContents(files: seq<InputFile>)
    requires CanonicalFiles(files) == files
    ensures forall k :: 0 <= k < |files| ==> files[k].content.Some?
  {
    if files == [] {
    } else {
      assert CanonicalFiles(files)[0] == files[0] && CanonicalFiles(files)[1..] == files[1..];
      CanonicalContents(files[1..]);
    }
  }

  /** The input itself, and not just what is left of it, comes back exactly when it is exact. */
  lemma RecoverableIffExact(i: Input)
    ensures Decode(Encode(i)) == Some(i) <==> Exact(i)
  {
    if Exact(i) {
      DecodeEncode(i);
      CanonicalReadable(i.files);
    }
    if Decode(Encode(i)) == Some(i) {
      DecodeInverts(Encode(i));
      CanonicalContents(i.files);
    }
  }

  /** A call imitates some clean one exactly when it is not clean and the reader nevertheless
      accepts its bytes. */
  lemma ImitatesIffReadable(i: Input)
    ensures (exists j :: Clean(j) && Canonical(j) != Canonical(i) && Encode(j) == Encode(i))
      <==> !Clean(i) && Decode(Encode(i)).Some?
  {
    if j :| Clean(j) && Canonical(j) != Canonical(i) && Encode(j) == Encode(i) {
      DecodeEncode(j);
      RecoverableIffClean(i);
    }
    if !Clean(i) && Decode(Encode(i)).Some? {
      var j := Decode(Encode(i)).value;
      DecodeInverts(Encode(i));
      CanonicalCleanIff(i);
      assert Clean(j) && Canonical(j) != Canonical(i) && Encode(j) == Encode(i);
    }
  }

  // ---- two families of collisions ----------------------------------------------------

  lemma JoinCons(a: Bytes, rest: seq<Bytes>)
    ensures Join([a] + rest) == if rest == [] then a else a + [NUL] + Join(rest)
  {
    assert ([a] + rest)[1..] == rest;
  }

  lemma {:induction false} JoinConcat(p: seq<Bytes>, q: seq<Bytes>)
    requires q != []
    ensures Join(p + q) == if p == [] then Join(q) else Join(p) + [NUL] + Join(q)
  {
    hide Join;
    if p == [] {
      assert p + q == q;
    } else {
      var a, rest := p[0], p[1..];
      JoinConcat(rest, q);
      assert p == [a] + rest && p + q == [a] + (rest + q);
      JoinCons(a, rest);
      JoinCons(a, rest + q);
      if rest != [] {
        assert a + [NUL] + (Join(rest) + [NUL] + Join(q)) == a + [NUL] + Join(rest) + [NUL] + Join(q);
      }
    }
  }

  /** An unreadable file hashes like an empty one, wherever it stands and whatever else is hashed:
      its absence is not part of the bytes. */
  lemma UnreadableLooksEmpty(version: Bytes, cmd: seq<Bytes>, pre: seq<InputFile>, path: Bytes, post: seq<InputFile>)
    ensures Encode(Input(version, cmd, pre + [InputFile(path, None)] + post))
      == Encode(Input(version, cmd, pre + [InputFile(path, Some([]))] + post))
  {
    hide EncodeFiles;
    var missing, empty := InputFile(path, None), InputFile(path, Some([]));
    EncodeFilesAppend(pre, missing);
    EncodeFilesAppend(pre, empty);
    assert EncodeFile(missing) == EncodeFile(empty);
    EncodeFilesConcat(pre + [missing], post);
    EncodeFilesConcat(pre + [empty], post);
  }

  lemma {:induction false} EncodeFilesConcat(a: seq<InputFile>, b: seq<InputFile>)
    ensures EncodeFiles(a + b) == EncodeFiles(a) + EncodeFiles(b)
    decreases |b|
  {
    hide EncodeFile;
    if b == [] {
      assert a + b == a;
    } else {
      EncodeFilesAppend(a, b[0]);
      EncodeFilesConcat(a + [b[0]], b[1..]);
      assert a + b == (a + [b[0]]) + b[1..];
      assert EncodeFiles(a + b) == EncodeFiles(a) + (EncodeFile(b[0]) + EncodeFiles(b[1..]));
    }
  }

  /** No argument hashes like one empty argument. */
  lemma NoArgumentLooksEmpty(version: Bytes, files: seq<InputFile>)
    ensures Encode(Input(version, [], files)) == Encode(Input(version, [[]], files))
  {
    assert Join([[]]) == Join([]);
  }

  /** `EncodeFile` without its last newline. */
  function FileText(f: InputFile): Bytes {
    Ascii("file=") + (f.path + [NEWLINE] +
    (Ascii("len=") + (Decimal(|Contribution(f)|) + [NEWLINE] + Contribution(f))))
  }

  lemma FileTextEnds(f: InputFile, rest: Bytes)
    ensures FileText(f) + ([NEWLINE] + rest) == EncodeFile(f) + rest
  {
  }

  /** Whatever the other arguments and files, a last argument that continues on a new line with
      the text of a file hashes like the shorter argument and one more file. */
  lemma NewlineArgumentCollides(version: Bytes, pre: seq<Bytes>, a: Bytes, f: InputFile, files: seq<InputFile>)
    ensures var i := Input(version, pre + [a + [NEWLINE] + FileText(f)], files);
      var j := Input(version, pre + [a], [f] + files);
      Encode(i) == Encode(j) && Canonical(i) != Canonical(j)
  {
    hide FileText, EncodeFile, EncodeFiles, Join, CanonicalFiles;
    JoinLonger(pre, a, [NEWLINE] + FileText(f));
    assert a + [NEWLINE] + FileText(f) == a + ([NEWLINE] + FileText(f));
    FileTextEnds(f, EncodeFiles(files));
    EncodeFilesCons(f, files);
    var x, y, z := Join(pre + [a]), FileText(f), EncodeFiles(files);
    assert x + ([NEWLINE] + y) + [NEWLINE] + z == x + [NEWLINE] + (y + ([NEWLINE] + z));
    CanonicalPaths(files);
    CanonicalPaths([f] + files);
  }

  lemma JoinLonger(pre: seq<Bytes>, a: Bytes, more: Bytes)
    ensures Join(pre + [a + more]) == Join(pre + [a]) + more
  {
    JoinConcat(pre, [a + more]);
    JoinConcat(pre, [a]);
  }

  lemma EncodeFilesCons(f: InputFile, files: seq<InputFile>)
    ensures EncodeFiles([f] + files) == EncodeFile(f) + EncodeFiles(files)
  {
    assert ([f] + files)[1..] == files;
  }

  /** Any argument with a NUL, in any command, hashes like its two halves. */
  lemma NulArgumentCollides(
    version: Bytes, pre: seq<Bytes>, a: Bytes, b: Bytes, post: seq<Bytes>, files: seq<InputFile>)
    ensures var i := Input(version, pre + [a + [NUL] + b] + post, files);
      var j := Input(version, pre + [a, b] + post, files);
      Encode(i) == Encode(j) && Canonical(i) != Canonical(j)
  {
    JoinHalves(a, b, post);
    JoinConcat(pre, [a + [NUL] + b] + post);
    JoinConcat(pre, [a, b] + post);
    assert pre + [a + [NUL] + b] + post == pre + ([a + [NUL] + b] + post);
    assert pre + [a, b] + post == pre + ([a, b] + post);
  }

  lemma JoinHalves(a: Bytes, b: Bytes, post: seq<Bytes>)
    ensures Join([a + [NUL] + b] + post) == Join([a, b] + post)
  {
    var whole, halves := [a + [NUL] + b] + post, [a, b] + post;
    assert halves[1..] == [b] + post;
    assert whole[1..] == post && halves[1..][1..] == post;
  }
}
