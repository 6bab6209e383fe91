/** Strict parsing of Git's NUL-framed machine output (arena/patching/git_pipeline.py).  Paths are
    kept as the bytes Git reported; strict UTF-8 decoding, which is one-to-one, is the parameter
    `utf8` that says which byte strings decode. */
module GitRecords {

  newtype byte = x: int | 0 <= x < 256

  type Bytes = seq<byte>

  import opened Common

  datatype Failure = OutputInvalid | UnsafePath | UnmergedIndex

  datatype Result<+T> = Ok(value: T) | Err(failure: Failure)

  const NUL: byte := 0
  const TAB: byte := 9
  const SPACE: byte := 32
  const ZERO: byte := 48
  const COLON: byte := 58

  // ---------------------------------------------------------------- splitting at a separator

  predicate Free(s: Bytes, sep: byte) {
    forall i :: 0 <= i < |s| ==> s[i] != sep
  }

  ghost predicate AllFree(parts: seq<Bytes>, sep: byte) {
    forall i :: 0 <= i < |parts| ==> Free(parts[i], sep)
  }

  /** bytes.split(sep) and str.split(sep): n separators make n + 1 pieces. */
  function Split(s: Bytes, sep: byte): (parts: seq<Bytes>)
    ensures parts != []
  {
    if s == [] then [[]]
    else
      var rest := Split(s[1..], sep);
      if s[0] == sep then [[]] + rest else [[s[0]] + rest[0]] + rest[1..]
  }

  /** The pieces with a separator between any two. */
  function Glue(parts: seq<Bytes>, sep: byte): Bytes
    requires parts != []
  {
    if |parts| == 1 then parts[0] else parts[0] + [sep] + Glue(parts[1..], sep)
  }

  lemma {:induction false} GlueOfSplit(s: Bytes, sep: byte)
    ensures Glue(Split(s, sep), sep) == s
  {
    if s != [] {
      var rest := Split(s[1..], sep);
      GlueOfSplit(s[1..], sep);
      assert s == [s[0]] + s[1..];
      if s[0] == sep {
        assert Split(s, sep)[1..] == rest;
      } else {
        GlueExtends([s[0]], rest, sep);
      }
    }
  }

  lemma {:induction false} GlueExtends(front: Bytes, parts: seq<Bytes>, sep: byte)
    requires parts != []
    ensures Glue([front + parts[0]] + parts[1..], sep) == front + Glue(parts, sep)
  {
    var longer := [front + parts[0]] + parts[1..];
    assert longer[1..] == parts[1..];
    if |parts| > 1 {
      var rest := Glue(parts[1..], sep);
      assert front + parts[0] + [sep] + rest == front + (parts[0] + [sep] + rest);
    }
  }

  lemma {:induction false} PiecesAreFree(s: Bytes, sep: byte)
    ensures AllFree(Split(s, sep), sep)
  {
    if s != [] { PiecesAreFree(s[1..], sep); }
  }

  lemma {:induction false} SplitOfGlue(parts: seq<Bytes>, sep: byte)
    requires parts != [] && AllFree(parts, sep)
    ensures Split(Glue(parts, sep), sep) == parts
    decreases |parts|, |parts[0]|
  {
    var s := Glue(parts, sep);
    var first := parts[0];
    if first != [] {
      var shorter := [first[1..]] + parts[1..];
      assert shorter[1..] == parts[1..];
      SplitOfGlue(shorter, sep);
      assert s[1..] == Glue(shorter, sep);
      assert s[0] == first[0] && first == [first[0]] + first[1..];
    } else if |parts| > 1 {
      SplitOfGlue(parts[1..], sep);
      assert s[1..] == Glue(parts[1..], sep);
      assert parts == [[]] + parts[1..];
    }
  }

  /** Splitting and gluing are inverse to each other. */
  lemma {:induction false} SplitExactly(s: Bytes, sep: byte, parts: seq<Bytes>)
    ensures Split(s, sep) == parts <==> parts != [] && AllFree(parts, sep) && Glue(parts, sep) == s
  {
    GlueOfSplit(s, sep);
    PiecesAreFree(s, sep);
    if parts != [] && AllFree(parts, sep) { SplitOfGlue(parts, sep); }
  }

  // ---------------------------------------------------------------- NUL-terminated records

  function SplitZ(data: Bytes): Result<seq<Bytes>> {
    if data != [] && data[|data| - 1] != NUL then Err(OutputInvalid)
    else
      var parts := Split(data, NUL);
      Ok(if parts[|parts| - 1] == [] then parts[..|parts| - 1] else parts)
  }

  /** The records, each followed by NUL. */
  function Terminated(parts: seq<Bytes>): Bytes {
    if parts == [] then [] else parts[0] + [NUL] + Terminated(parts[1..])
  }

  lemma {:induction false} TerminatedIsGlued(parts: seq<Bytes>)
    ensures Terminated(parts) == Glue(parts + [[]], NUL)
  {
    if parts != [] {
      TerminatedIsGlued(parts[1..]);
      assert (parts + [[]])[1..] == parts[1..] + [[]];
    }
  }

  lemma {:induction false} LastPieceEnds(parts: seq<Bytes>)
    requires parts != []
    ensures parts[|parts| - 1] != [] ==> Glue(parts, NUL) != [] && Glue(parts, NUL)[|Glue(parts, NUL)| - 1] == parts[|parts| - 1][|parts[|parts| - 1]| - 1]
  {
    if |parts| > 1 { LastPieceEnds(parts[1..]); }
  }

  lemma {:induction false} TerminatedEnds(parts: seq<Bytes>)
    ensures Terminated(parts) == [] || Terminated(parts)[|Terminated(parts)| - 1] == NUL
  {
    if parts != [] { TerminatedEnds(parts[1..]); }
  }

  lemma {:induction false} TerminatedSplits(parts: seq<Bytes>)
    requires AllFree(parts, NUL)
    ensures SplitZ(Terminated(parts)) == Ok(parts)
  {
    TerminatedIsGlued(parts);
    TerminatedEnds(parts);
    SplitExactly(Terminated(parts), NUL, parts + [[]]);
    assert (parts + [[]])[..|parts|] == parts;
  }

  lemma {:induction false} SplitTerminates(data: Bytes, parts: seq<Bytes>)
    requires SplitZ(data) == Ok(parts)
    ensures AllFree(parts, NUL) && data == Terminated(parts)
  {
    var pieces := Split(data, NUL);
    SplitExactly(data, NUL, pieces);
    LastPieceEnds(pieces);
    assert pieces == parts + [[]];
    assert forall i :: 0 <= i < |parts| ==> parts[i] == pieces[i];
    TerminatedIsGlued(parts);
  }

  /** Splitting undoes NUL-terminated joining, and accepts nothing else. */
  lemma {:induction false} SplitZExactly(data: Bytes, parts: seq<Bytes>)
    ensures SplitZ(data) == Ok(parts) <==> AllFree(parts, NUL) && data == Terminated(parts)
  {
    if SplitZ(data) == Ok(parts) { SplitTerminates(data, parts); }
    if AllFree(parts, NUL) && data == Terminated(parts) { TerminatedSplits(parts); }
  }

  // ---------------------------------------------------------------- fields

  predicate Ascii(s: Bytes) { forall i :: 0 <= i < |s| ==> s[i] < 128 }

  predicate OctalMode(s: Bytes) { |s| == 6 && forall i :: 0 <= i < |s| ==> 48 <= s[i] <= 55 }

  predicate Hex(s: Bytes) {
    forall i :: 0 <= i < |s| ==> 48 <= s[i] <= 57 || 97 <= s[i] <= 102
  }

  /** A, M, D, T, R or C. */
  predicate RawStatus(letter: byte) { letter in {65, 77, 68, 84, 82, 67} }

  /** R or C: the record has two paths. */
  predicate TwoPaths(letter: byte) { letter == 82 || letter == 67 }

  function DecodePath(raw: Bytes, utf8: Bytes -> bool): Result<Bytes> {
    if !utf8(raw) then Err(UnsafePath)
    else if raw == [] then Err(OutputInvalid)
    else Ok(raw)
  }

  /** The bytes as characters. */
  function Characters(s: Bytes): (t: string)
    ensures |t| == |s| && forall i :: 0 <= i < |s| ==> t[i] == s[i] as char
  {
    seq(|s|, i requires 0 <= i < |s| => s[i] as char)
  }

  ghost predicate Only(s: Bytes, allowed: string) { forall c :: c in Characters(s) ==> c in allowed }

  /** The classes of bytes, spelled as the characters that they stand for. */
  lemma {:induction false} FieldsInCharacters(s: Bytes)
    ensures OctalMode(s) <==> |s| == 6 && Only(s, "01234567")
    ensures Hex(s) <==> Only(s, "0123456789abcdef")
    ensures |s| == 1 ==> (RawStatus(s[0]) <==> Only(s, "AMDTRC")) && (TwoPaths(s[0]) <==> Only(s, "RC"))
    ensures Characters([NUL, TAB, SPACE, COLON, ZERO]) == ['\0', '\t', ' ', ':', '0']
  {
    var t := Characters(s);
    forall i | 0 <= i < |s| ensures t[i] in t {}
  }

  // ---------------------------------------------------------------- git diff --raw -z

  datatype GitChange =
    GitChange(letter: byte, oldMode: Bytes, newMode: Bytes, oldSha: Bytes, newSha: Bytes,
              oldPath: Option<Bytes>, newPath: Bytes)

  datatype Meta = Meta(oldMode: Bytes, newMode: Bytes, oldSha: Bytes, newSha: Bytes, status: Bytes)

  function ReadMeta(meta: Bytes): Result<Meta> {
    if meta == [] || meta[0] != COLON then Err(OutputInvalid)
    else if !Ascii(meta[1..]) then Err(OutputInvalid)
    else
      var fields := Split(meta[1..], SPACE);
      if |fields| != 5 then Err(OutputInvalid)
      else if !(OctalMode(fields[0]) && OctalMode(fields[1])) then Err(OutputInvalid)
      else if fields[2] == [] || !Hex(fields[2]) || fields[3] == [] || !Hex(fields[3]) then Err(OutputInvalid)
      else if fields[4] == [] || !RawStatus(fields[4][0]) then Err(OutputInvalid)
      else Ok(Meta(fields[0], fields[1], fields[2], fields[3], fields[4]))
  }

  ghost predicate MetaOk(m: Meta) {
    && OctalMode(m.oldMode) && OctalMode(m.newMode)
    && m.oldSha != [] && Hex(m.oldSha) && m.newSha != [] && Hex(m.newSha)
    && m.status != [] && RawStatus(m.status[0]) && Ascii(m.status) && Free(m.status, SPACE)
  }

  ghost function Fields(m: Meta): seq<Bytes> { [m.oldMode, m.newMode, m.oldSha, m.newSha, m.status] }

  ghost function PrintMeta(m: Meta): Bytes { [COLON] + Glue(Fields(m), SPACE) }

  lemma {:induction false} GlueAscii(parts: seq<Bytes>, sep: byte)
    requires parts != [] && sep < 128
    ensures Ascii(Glue(parts, sep)) <==> forall i :: 0 <= i < |parts| ==> Ascii(parts[i])
  {
    if |parts| > 1 {
      var rest := parts[1..];
      GlueAscii(rest, sep);
      var s := Glue(rest, sep);
      var all := Glue(parts, sep);
      assert all == parts[0] + [sep] + s;
      if Ascii(all) {
        assert forall i :: 0 <= i < |parts[0]| ==> parts[0][i] == all[i];
        assert forall i :: 0 <= i < |s| ==> s[i] == all[|parts[0]| + 1 + i];
        forall i | 0 <= i < |parts| ensures Ascii(parts[i]) { if i > 0 { assert parts[i] == rest[i - 1]; } }
      }
      if forall i :: 0 <= i < |parts| ==> Ascii(parts[i]) {
        forall i | 0 <= i < |rest| ensures Ascii(rest[i]) { assert rest[i] == parts[i + 1]; }
      }
    }
  }

  /** A metadata field is read exactly when it is the printing of a well-formed one. */
  lemma {:induction false} MetaExactly(meta: Bytes, m: Meta)
    ensures ReadMeta(meta) == Ok(m) <==> MetaOk(m) && meta == PrintMeta(m)
  {
    var fields := Fields(m);
    if meta != [] && meta[0] == COLON {
      var body := meta[1..];
      assert meta == [COLON] + body;
      SplitExactly(body, SPACE, Split(body, SPACE));
      SplitExactly(body, SPACE, fields);
      GlueAscii(Split(body, SPACE), SPACE);
      if ReadMeta(meta) == Ok(m) {
        assert Split(body, SPACE) == fields;
        assert Ascii(fields[4]) && Free(fields[4], SPACE);
      }
      if MetaOk(m) && meta == PrintMeta(m) {
        assert body == Glue(fields, SPACE);
        GlueAscii(fields, SPACE);
      }
    }
  }

  /** One record read from the front: the change, its status field and the number of parts used. */
  function ReadRecord(parts: seq<Bytes>, utf8: Bytes -> bool): (r: Result<(GitChange, Meta, nat)>)
    requires parts != []
    ensures r.Ok? ==> 0 < r.value.2 <= |parts|
  {
    match ReadMeta(parts[0])
    case Err(e) => Err(e)
    case Ok(m) =>
      var letter := m.status[0];
      if TwoPaths(letter) then
        if |parts| <= 2 then Err(OutputInvalid)
        else
          match DecodePath(parts[1], utf8)
          case Err(e) => Err(e)
          case Ok(first) =>
            match DecodePath(parts[2], utf8)
            case Err(e) => Err(e)
            case Ok(path) => Ok((GitChange(letter, m.oldMode, m.newMode, m.oldSha, m.newSha, Some(first), path), m, 3))
      else if |parts| <= 1 then Err(OutputInvalid)
      else
        match DecodePath(parts[1], utf8)
        case Err(e) => Err(e)
        case Ok(path) => Ok((GitChange(letter, m.oldMode, m.newMode, m.oldSha, m.newSha, None, path), m, 2))
  }

  function NewPaths(cs: seq<GitChange>): (paths: seq<Bytes>)
    ensures |paths| == |cs| && forall i :: 0 <= i < |cs| ==> paths[i] == cs[i].newPath
  {
    seq(|cs|, i requires 0 <= i < |cs| => cs[i].newPath)
  }

  lemma {:induction false} NewPathsAppend(cs: seq<GitChange>, c: GitChange)
    ensures NewPaths(cs + [c]) == NewPaths(cs) + [c.newPath]
    ensures Distinct(NewPaths(cs + [c])) <==> Distinct(NewPaths(cs)) && c.newPath !in NewPaths(cs)
  {
    assert NewPaths(cs + [c]) == NewPaths(cs) + [c.newPath];
    DistinctAppend(NewPaths(cs), c.newPath);
  }

  /** All records, after the changes `done`. */
  function ParseRaw(parts: seq<Bytes>, done: seq<GitChange>, utf8: Bytes -> bool): Result<seq<GitChange>>
    decreases |parts|
  {
    if parts == [] then Ok(done)
    else
      match ReadRecord(parts, utf8)
      case Err(e) => Err(e)
      case Ok((change, _, used)) =>
        if change.newPath in NewPaths(done) then Err(OutputInvalid)
        else ParseRaw(parts[used..], done + [change], utf8)
  }

  // ---------------------------------------------------------------- what Git prints

  ghost predicate PathOk(path: Bytes, utf8: Bytes -> bool) { path != [] && utf8(path) }

  /** The metadata of a change; `tail` is what follows the status letter, such as a similarity score. */
  ghost function MetaOf(c: GitChange, tail: Bytes): Meta {
    Meta(c.oldMode, c.newMode, c.oldSha, c.newSha, [c.letter] + tail)
  }

  ghost predicate ChangeOk(c: GitChange, tail: Bytes, utf8: Bytes -> bool) {
    && MetaOk(MetaOf(c, tail))
    && (TwoPaths(c.letter) <==> c.oldPath.Some?)
    && (c.oldPath.Some? ==> PathOk(c.oldPath.value, utf8))
    && PathOk(c.newPath, utf8)
  }

  ghost function PrintChange(c: GitChange, tail: Bytes): seq<Bytes> {
    [PrintMeta(MetaOf(c, tail))] + (if c.oldPath.Some? then [c.oldPath.value] else []) + [c.newPath]
  }

  ghost function PrintAll(cs: seq<GitChange>, tails: seq<Bytes>): seq<Bytes>
    requires |cs| == |tails|
  {
    if cs == [] then [] else PrintChange(cs[0], tails[0]) + PrintAll(cs[1..], tails[1..])
  }

  /** The printing, byte by byte: a colon, two modes, two object ids and the status with spaces between
      them, and then the paths, each of these ended by NUL. */
  lemma {:induction false} PrintedBytes(c: GitChange, tail: Bytes)
    ensures Terminated(PrintChange(c, tail)) ==
              [58] + c.oldMode + [32] + c.newMode + [32] + c.oldSha + [32] + c.newSha + [32] + [c.letter] + tail + [0]
              + (if c.oldPath.Some? then c.oldPath.value + [0] else []) + c.newPath + [0]
  {
    var status := [c.letter] + tail;
    GlueFive(c.oldMode, c.newMode, c.oldSha, c.newSha, status);
    hide Glue;
    var meta := PrintMeta(MetaOf(c, tail));
    assert meta == [58] + c.oldMode + [32] + c.newMode + [32] + c.oldSha + [32] + c.newSha + [32] + status;
    hide PrintMeta;
    var parts, last := PrintChange(c, tail), [c.newPath];
    assert last[1..] == [] && Terminated(last) == c.newPath + [0];
    if c.oldPath.Some? {
      var paths := [c.oldPath.value, c.newPath];
      assert parts[1..] == paths && paths[1..] == last;
      assert Terminated(paths) == c.oldPath.value + [0] + Terminated(last);
    } else {
      assert parts[1..] == last;
    }
  }

  lemma {:induction false} GlueFive(a: Bytes, b: Bytes, c: Bytes, d: Bytes, e: Bytes)
    ensures Glue([a, b, c, d, e], SPACE) == a + [32] + (b + [32] + (c + [32] + (d + [32] + e)))
  {
    assert [a, b, c, d, e][1..] == [b, c, d, e] && [b, c, d, e][1..] == [c, d, e];
    assert [c, d, e][1..] == [d, e] && [d, e][1..] == [e];
    assert Glue([e], SPACE) == e;
    assert Glue([d, e], SPACE) == d + [32] + e;
    assert Glue([c, d, e], SPACE) == c + [32] + (d + [32] + e);
    assert Glue([b, c, d, e], SPACE) == b + [32] + (c + [32] + (d + [32] + e));
  }

  ghost predicate AllOk(cs: seq<GitChange>, tails: seq<Bytes>, utf8: Bytes -> bool)
    requires |cs| == |tails|
  {
    forall i :: 0 <= i < |cs| ==> ChangeOk(cs[i], tails[i], utf8)
  }

  /** A record is read exactly when the parts begin with the printing of a well-formed change. */
  lemma {:induction false} RecordExactly(parts: seq<Bytes>, c: GitChange, m: Meta, used: nat, utf8: Bytes -> bool)
    requires parts != []
    ensures ReadRecord(parts, utf8) == Ok((c, m, used)) <==>
              m.status != [] && m == MetaOf(c, m.status[1..]) && ChangeOk(c, m.status[1..], utf8)
              && used == |PrintChange(c, m.status[1..])| <= |parts| && parts[..used] == PrintChange(c, m.status[1..])
  {
    MetaExactly(parts[0], m);
    if ReadMeta(parts[0]).Ok? { MetaExactly(parts[0], ReadMeta(parts[0]).value); }
    hide ReadMeta, MetaOk, PrintMeta;
    var r := ReadRecord(parts, utf8);
    if r == Ok((c, m, used)) {
      assert m.status == [m.status[0]] + m.status[1..];
      assert parts[..used] == PrintChange(c, m.status[1..]);
    }
    if m.status != [] && m == MetaOf(c, m.status[1..]) && ChangeOk(c, m.status[1..], utf8)
       && used == |PrintChange(c, m.status[1..])| <= |parts| && parts[..used] == PrintChange(c, m.status[1..]) {
      var printed := PrintChange(c, m.status[1..]);
      assert forall i :: 0 <= i < used ==> parts[i] == printed[i];
      assert parts[0] == PrintMeta(m);
      assert r == Ok((c, m, used));
    }
  }

  ghost predicate IsPrinting(cs: seq<GitChange>, tails: seq<Bytes>, parts: seq<Bytes>, utf8: Bytes -> bool) {
    |cs| == |tails| && AllOk(cs, tails, utf8) && parts == PrintAll(cs, tails)
  }

  lemma {:induction false} PrintedIsParsed(cs: seq<GitChange>, tails: seq<Bytes>, parts: seq<Bytes>, done: seq<GitChange>, utf8: Bytes -> bool)
    requires IsPrinting(cs, tails, parts, utf8) && Distinct(NewPaths(done + cs))
    ensures ParseRaw(parts, done, utf8) == Ok(done + cs)
    decreases |cs|
  {
    if cs == [] {
      assert done + cs == done;
    } else {
      hide ChangeOk, ReadRecord, PrintChange, NewPaths, Distinct, ParseRaw;
      assert ChangeOk(cs[0], tails[0], utf8);
      NotTaken(done, cs);
      SkipPrinted(PrintAll(cs[1..], tails[1..]), done, cs[0], tails[0], utf8);
      assert done + cs == done + [cs[0]] + cs[1..];
      assert AllOk(cs[1..], tails[1..], utf8);
      PrintedIsParsed(cs[1..], tails[1..], PrintAll(cs[1..], tails[1..]), done + [cs[0]], utf8);
    }
  }

  lemma {:induction false} OneMorePrinted(c: GitChange, tail: Bytes, cs: seq<GitChange>, tails: seq<Bytes>, parts: seq<Bytes>, utf8: Bytes -> bool)
    requires ChangeOk(c, tail, utf8) && IsPrinting(cs, tails, parts, utf8)
    ensures IsPrinting([c] + cs, [tail] + tails, PrintChange(c, tail) + parts, utf8)
  {
    assert ([c] + cs)[1..] == cs && ([tail] + tails)[1..] == tails;
  }

  /** The first `used` parts are the printing of a well-formed change, new among those before it. */
  ghost predicate Begins(parts: seq<Bytes>, done: seq<GitChange>, c: GitChange, tail: Bytes, used: nat, utf8: Bytes -> bool) {
    && 0 < used <= |parts| && parts[..used] == PrintChange(c, tail) && ChangeOk(c, tail, utf8)
    && c.newPath !in NewPaths(done)
  }

  /** What the first record of accepted parts is. */
  lemma {:induction false} FirstRecord(parts: seq<Bytes>, done: seq<GitChange>, cs: seq<GitChange>, utf8: Bytes -> bool)
    returns (c: GitChange, tail: Bytes, used: nat)
    requires parts != [] && ParseRaw(parts, done, utf8) == Ok(cs)
    ensures Begins(parts, done, c, tail, used, utf8) && ParseRaw(parts[used..], done + [c], utf8) == Ok(cs)
  {
    var record := ReadRecord(parts, utf8).value;
    RecordExactly(parts, record.0, record.1, record.2, utf8);
    return record.0, record.1.status[1..], record.2;
  }

  lemma {:induction false} ParsedIsPrinted(parts: seq<Bytes>, done: seq<GitChange>, cs: seq<GitChange>, utf8: Bytes -> bool)
    returns (tails: seq<Bytes>)
    requires Distinct(NewPaths(done)) && ParseRaw(parts, done, utf8) == Ok(cs)
    ensures done <= cs && Distinct(NewPaths(cs))
    ensures IsPrinting(cs[|done|..], tails, parts, utf8)
    decreases |parts|
  {
    if parts == [] {
      assert cs[|done|..] == [];
      return [];
    }
    var c, tail, used := FirstRecord(parts, done, cs, utf8);
    NewPathsAppend(done, c);
    hide *;
    var more := ParsedIsPrinted(parts[used..], done + [c], cs, utf8);
    OneMorePrinted(c, tail, cs[|done + [c]|..], more, parts[used..], utf8);
    assert parts == parts[..used] + parts[used..];
    assert cs[|done|..] == [c] + cs[|done + [c]|..];
    return [tail] + more;
  }

  /** No NUL in anything that Git prints for the change. */
  ghost predicate NulFree(c: GitChange, tail: Bytes) {
    Free(tail, NUL) && Free(c.newPath, NUL) && (c.oldPath.Some? ==> Free(c.oldPath.value, NUL))
  }

  lemma {:induction false} GlueFree(parts: seq<Bytes>, sep: byte, c: byte)
    requires parts != [] && sep != c
    ensures Free(Glue(parts, sep), c) <==> AllFree(parts, c)
  {
    if |parts| > 1 {
      var rest := parts[1..];
      GlueFree(rest, sep, c);
      var s := Glue(rest, sep);
      var all := Glue(parts, sep);
      assert all == parts[0] + [sep] + s;
      if Free(all, c) {
        assert forall i :: 0 <= i < |parts[0]| ==> parts[0][i] == all[i];
        assert forall i :: 0 <= i < |s| ==> s[i] == all[|parts[0]| + 1 + i];
        forall i | 0 <= i < |parts| ensures Free(parts[i], c) { if i > 0 { assert parts[i] == rest[i - 1]; } }
      }
      if AllFree(parts, c) {
        forall i | 0 <= i < |rest| ensures Free(rest[i], c) { assert rest[i] == parts[i + 1]; }
      }
    }
  }

  lemma {:induction false} ChangeIsFree(c: GitChange, tail: Bytes, utf8: Bytes -> bool)
    requires ChangeOk(c, tail, utf8)
    ensures AllFree(PrintChange(c, tail), NUL) <==> NulFree(c, tail)
  {
    var m := MetaOf(c, tail);
    var printed := PrintChange(c, tail);
    GlueFree(Fields(m), SPACE, NUL);
    assert Free(m.status, NUL) <==> Free(tail, NUL) by {
      assert forall i :: 0 <= i < |tail| ==> tail[i] == m.status[i + 1];
    }
    assert AllFree(Fields(m), NUL) <==> Free(m.status, NUL) by {
      assert Fields(m)[4] == m.status;
    }
    var meta := PrintMeta(m);
    assert Free(meta, NUL) <==> Free(Glue(Fields(m), SPACE), NUL) by {
      assert forall i :: 0 <= i < |meta| - 1 ==> meta[i + 1] == Glue(Fields(m), SPACE)[i];
    }
    assert printed[0] == meta;
    assert printed[|printed| - 1] == c.newPath;
    assert c.oldPath.Some? ==> printed[1] == c.oldPath.value;
  }

  lemma {:induction false} AllFreeConcat(a: seq<Bytes>, b: seq<Bytes>, sep: byte)
    ensures AllFree(a + b, sep) <==> AllFree(a, sep) && AllFree(b, sep)
  {
    assert forall i :: 0 <= i < |a| ==> a[i] == (a + b)[i];
    assert forall i :: 0 <= i < |b| ==> b[i] == (a + b)[|a| + i];
  }

  ghost predicate AllNulFree(cs: seq<GitChange>, tails: seq<Bytes>)
    requires |cs| == |tails|
  {
    forall i :: 0 <= i < |cs| ==> NulFree(cs[i], tails[i])
  }

  lemma {:induction false} PrintingIsFree(cs: seq<GitChange>, tails: seq<Bytes>, utf8: Bytes -> bool)
    requires |cs| == |tails| && AllOk(cs, tails, utf8)
    ensures AllFree(PrintAll(cs, tails), NUL) <==> AllNulFree(cs, tails)
  {
    if cs != [] {
      assert ChangeOk(cs[0], tails[0], utf8);
      ChangeIsFree(cs[0], tails[0], utf8);
      PrintingIsFree(cs[1..], tails[1..], utf8);
      AllFreeConcat(PrintChange(cs[0], tails[0]), PrintAll(cs[1..], tails[1..]), NUL);
      assert AllNulFree(cs, tails) <==> NulFree(cs[0], tails[0]) && AllNulFree(cs[1..], tails[1..]) by {
        hide NulFree;
        assert forall i :: 0 < i < |cs| ==> cs[i] == cs[1..][i - 1] && tails[i] == tails[1..][i - 1];
        if NulFree(cs[0], tails[0]) && AllNulFree(cs[1..], tails[1..]) {
          forall i | 0 <= i < |cs| ensures NulFree(cs[i], tails[i]) {
            if i > 0 { assert NulFree(cs[1..][i - 1], tails[1..][i - 1]); }
          }
        }
      }
    }
  }

  /** data is what `git diff --raw -z` prints for these changes. */
  ghost predicate PrintsRaw(data: Bytes, cs: seq<GitChange>, tails: seq<Bytes>, utf8: Bytes -> bool) {
    && |cs| == |tails| && AllOk(cs, tails, utf8) && AllNulFree(cs, tails)
    && data == Terminated(PrintAll(cs, tails))
  }

  function RawChanges(data: Bytes, utf8: Bytes -> bool): Result<seq<GitChange>> {
    match SplitZ(data)
    case Err(e) => Err(e)
    case Ok(parts) => ParseRaw(parts, [], utf8)
  }

  /** Raw output is accepted with these changes exactly when it is their printing, with some status
      suffixes, and no two changes have the same new path. */
  lemma {:induction false} RawExactly(data: Bytes, cs: seq<GitChange>, utf8: Bytes -> bool)
    ensures RawChanges(data, utf8) == Ok(cs) <==> Distinct(NewPaths(cs)) && exists tails :: PrintsRaw(data, cs, tails, utf8)
  {
    if RawChanges(data, utf8) == Ok(cs) {
      var parts := SplitZ(data).value;
      SplitZExactly(data, parts);
      var tails := ParsedIsPrinted(parts, [], cs, utf8);
      assert cs[0..] == cs;
      PrintingIsFree(cs, tails, utf8);
      assert PrintsRaw(data, cs, tails, utf8);
    }
    if Distinct(NewPaths(cs)) && exists tails :: PrintsRaw(data, cs, tails, utf8) {
      var tails :| PrintsRaw(data, cs, tails, utf8);
      var parts := PrintAll(cs, tails);
      PrintingIsFree(cs, tails, utf8);
      SplitZExactly(data, parts);
      assert [] + cs == cs;
      PrintedIsParsed(cs, tails, parts, [], utf8);
    }
  }

  // ---------------------------------------------------------------- which failure is reported

  /** No change can be read from the front: which failure is due. */
  ghost predicate Unreadable(parts: seq<Bytes>, utf8: Bytes -> bool, f: Failure)
    requires parts != []
  {
    if forall m :: MetaOk(m) ==> parts[0] != PrintMeta(m) then f == OutputInvalid
    else
      exists m :: MetaOk(m) && parts[0] == PrintMeta(m) && PathsUnreadable(parts[1..], if TwoPaths(m.status[0]) then 2 else 1, utf8, f)
  }

  /** The paths of a change are missing, or the first bad one among them is undecodable or empty. */
  ghost predicate PathsUnreadable(paths: seq<Bytes>, n: nat, utf8: Bytes -> bool, f: Failure) {
    if |paths| < n then f == OutputInvalid
    else
      exists k :: 0 <= k < n && (forall i :: 0 <= i < k ==> PathOk(paths[i], utf8)) && !PathOk(paths[k], utf8)
                  && f == if utf8(paths[k]) then OutputInvalid else UnsafePath
  }

  lemma {:induction false} PathsRead(paths: seq<Bytes>, n: nat, utf8: Bytes -> bool, f: Failure)
    requires 1 <= n <= 2 && n <= |paths|
    ensures PathsUnreadable(paths, n, utf8, f) <==>
              || DecodePath(paths[0], utf8) == Err(f)
              || (n == 2 && DecodePath(paths[0], utf8).Ok? && DecodePath(paths[1], utf8) == Err(f))
  {
    if !PathOk(paths[0], utf8) {
      assert DecodePath(paths[0], utf8) == Err(f) ==> PathsUnreadable(paths, n, utf8, f) by { assert 0 <= 0 < n; }
    } else if n == 2 && !PathOk(paths[1], utf8) {
      assert DecodePath(paths[1], utf8) == Err(f) ==> PathsUnreadable(paths, n, utf8, f) by { assert 0 <= 1 < n; }
    }
  }

  lemma {:induction false} RecordFailsExactly(parts: seq<Bytes>, utf8: Bytes -> bool, f: Failure)
    requires parts != []
    ensures ReadRecord(parts, utf8) == Err(f) <==> Unreadable(parts, utf8, f)
  {
    forall m ensures ReadMeta(parts[0]) == Ok(m) <==> MetaOk(m) && parts[0] == PrintMeta(m) { MetaExactly(parts[0], m); }
    if ReadMeta(parts[0]).Ok? {
      var m := ReadMeta(parts[0]).value;
      var n := if TwoPaths(m.status[0]) then 2 else 1;
      assert MetaOk(m) && parts[0] == PrintMeta(m);
      hide ReadMeta, MetaOk, PrintMeta, PathsUnreadable;
      if |parts| > n { PathsRead(parts[1..], n, utf8, f); } else { PathsMissing(parts[1..], n, utf8, f); }
    } else {
      MetaFails(parts[0]);
      hide ReadMeta, MetaOk, PrintMeta, PathsUnreadable;
    }
  }

  lemma {:induction false} PathsMissing(paths: seq<Bytes>, n: nat, utf8: Bytes -> bool, f: Failure)
    requires |paths| < n
    ensures PathsUnreadable(paths, n, utf8, f) <==> f == OutputInvalid
  {
  }

  lemma {:induction false} MetaFails(meta: Bytes)
    ensures ReadMeta(meta).Err? ==> ReadMeta(meta) == Err(OutputInvalid)
  {
  }

  /** After the changes `done`, the rest begins with something that is no change, or with one whose
      new path is already taken. */
  ghost predicate Broken(done: seq<GitChange>, rest: seq<Bytes>, utf8: Bytes -> bool, f: Failure) {
    && rest != []
    && (Unreadable(rest, utf8, f)
        || (f == OutputInvalid && exists c, tail :: ChangeOk(c, tail, utf8) && PrintChange(c, tail) <= rest && c.newPath in NewPaths(done)))
  }

  lemma {:induction false} BrokenExactly(done: seq<GitChange>, rest: seq<Bytes>, utf8: Bytes -> bool, f: Failure)
    requires rest != []
    ensures Broken(done, rest, utf8, f) <==>
              || ReadRecord(rest, utf8) == Err(f)
              || (f == OutputInvalid && ReadRecord(rest, utf8).Ok? && ReadRecord(rest, utf8).value.0.newPath in NewPaths(done))
  {
    RecordFailsExactly(rest, utf8, f);
    hide Unreadable, ReadRecord, ChangeOk, PrintChange;
    if ReadRecord(rest, utf8).Ok? {
      var (c, m, used) := ReadRecord(rest, utf8).value;
      RecordExactly(rest, c, m, used, utf8);
      if c.newPath in NewPaths(done) {
        assert PrintChange(c, m.status[1..]) <= rest;
      }
    }
    forall c, tail | ChangeOk(c, tail, utf8) && PrintChange(c, tail) <= rest
      ensures ReadRecord(rest, utf8).Ok? && ReadRecord(rest, utf8).value.0 == c
    {
      PrintedIsRead(rest, c, tail, utf8);
    }
  }

  lemma {:induction false} PrintedIsRead(rest: seq<Bytes>, c: GitChange, tail: Bytes, utf8: Bytes -> bool)
    requires ChangeOk(c, tail, utf8) && PrintChange(c, tail) <= rest && rest != []
    ensures ReadRecord(rest, utf8) == Ok((c, MetaOf(c, tail), |PrintChange(c, tail)|))
  {
    var m := MetaOf(c, tail);
    assert m.status[1..] == tail;
    RecordExactly(rest, c, m, |PrintChange(c, tail)|, utf8);
  }

  /** The parts are the printing of these changes, and then break off with failure f. */
  ghost predicate BreaksAfter(parts: seq<Bytes>, done: seq<GitChange>, cs: seq<GitChange>, tails: seq<Bytes>, rest: seq<Bytes>,
                              utf8: Bytes -> bool, f: Failure) {
    && |cs| == |tails| && AllOk(cs, tails, utf8) && Distinct(NewPaths(done + cs))
    && parts == PrintAll(cs, tails) + rest && Broken(done + cs, rest, utf8, f)
  }

  lemma {:induction false} BrokenIsRefused(parts: seq<Bytes>, done: seq<GitChange>, cs: seq<GitChange>, tails: seq<Bytes>, rest: seq<Bytes>,
                                           utf8: Bytes -> bool, f: Failure)
    requires BreaksAfter(parts, done, cs, tails, rest, utf8, f)
    ensures ParseRaw(parts, done, utf8) == Err(f)
    decreases |cs|
  {
    assert rest != [];
    hide ChangeOk, ReadRecord, PrintChange, Broken, NewPaths, Distinct, Unreadable, ParseRaw;
    if cs == [] {
      assert done + cs == done && parts == rest;
      BrokenNow(done, rest, utf8, f);
    } else {
      var later := PrintAll(cs[1..], tails[1..]) + rest;
      assert ChangeOk(cs[0], tails[0], utf8);
      assert parts == PrintChange(cs[0], tails[0]) + later;
      NotTaken(done, cs);
      SkipPrinted(later, done, cs[0], tails[0], utf8);
      assert done + cs == done + [cs[0]] + cs[1..];
      assert AllOk(cs[1..], tails[1..], utf8);
      BrokenIsRefused(later, done + [cs[0]], cs[1..], tails[1..], rest, utf8, f);
    }
  }

  lemma {:induction false} BrokenNow(done: seq<GitChange>, rest: seq<Bytes>, utf8: Bytes -> bool, f: Failure)
    requires Broken(done, rest, utf8, f)
    ensures ParseRaw(rest, done, utf8) == Err(f)
  {
    BrokenExactly(done, rest, utf8, f);
    hide ReadRecord, NewPaths, Unreadable;
  }

  /** A printed change in front is read and set aside. */
  lemma {:induction false} SkipPrinted(later: seq<Bytes>, done: seq<GitChange>, c: GitChange, tail: Bytes, utf8: Bytes -> bool)
    requires ChangeOk(c, tail, utf8) && c.newPath !in NewPaths(done)
    ensures ParseRaw(PrintChange(c, tail) + later, done, utf8) == ParseRaw(later, done + [c], utf8)
  {
    var parts := PrintChange(c, tail) + later;
    assert parts != [] && parts[|PrintChange(c, tail)|..] == later;
    hide ChangeOk, ReadRecord, PrintChange, NewPaths;
    PrintedIsRead(parts, c, tail, utf8);
  }

  lemma {:induction false} NotTaken(done: seq<GitChange>, cs: seq<GitChange>)
    requires cs != [] && Distinct(NewPaths(done + cs))
    ensures cs[0].newPath !in NewPaths(done)
  {
    assert NewPaths(done + cs)[|done|] == cs[0].newPath;
    assert forall k :: 0 <= k < |done| ==> NewPaths(done + cs)[k] == NewPaths(done)[k];
  }

  lemma {:induction false} RefusedIsBroken(parts: seq<Bytes>, done: seq<GitChange>, utf8: Bytes -> bool, f: Failure)
    returns (cs: seq<GitChange>, tails: seq<Bytes>, rest: seq<Bytes>)
    requires Distinct(NewPaths(done)) && ParseRaw(parts, done, utf8) == Err(f)
    ensures BreaksAfter(parts, done, cs, tails, rest, utf8, f)
    decreases |parts|
  {
    BrokenExactly(done, parts, utf8, f);
    if Broken(done, parts, utf8, f) {
      cs, tails, rest := [], [], parts;
      assert done + cs == done && PrintAll(cs, tails) + rest == parts;
    } else {
      var (c, m, used) := ReadRecord(parts, utf8).value;
      RecordExactly(parts, c, m, used, utf8);
      NewPathsAppend(done, c);
      hide Broken, ChangeOk, PrintChange, ReadRecord;
      cs, tails, rest := RefusedIsBroken(parts[used..], done + [c], utf8, f);
      OneMoreBefore(parts, done, c, m.status[1..], used, cs, tails, rest, utf8, f);
      cs, tails := [c] + cs, [m.status[1..]] + tails;
    }
  }

  lemma {:induction false} OneMoreBefore(parts: seq<Bytes>, done: seq<GitChange>, c: GitChange, tail: Bytes, used: nat,
                                         cs: seq<GitChange>, tails: seq<Bytes>, rest: seq<Bytes>, utf8: Bytes -> bool, f: Failure)
    requires used <= |parts| && parts[..used] == PrintChange(c, tail) && ChangeOk(c, tail, utf8)
    requires BreaksAfter(parts[used..], done + [c], cs, tails, rest, utf8, f)
    ensures BreaksAfter(parts, done, [c] + cs, [tail] + tails, rest, utf8, f)
  {
    hide Broken, ChangeOk, PrintChange, NewPaths, Distinct;
    assert ([c] + cs)[1..] == cs && ([tail] + tails)[1..] == tails;
    assert done + ([c] + cs) == done + [c] + cs;
    assert parts == parts[..used] + parts[used..];
    assert PrintAll([c] + cs, [tail] + tails) == PrintChange(c, tail) + PrintAll(cs, tails);
  }

  /** Raw output is refused with failure f exactly when it does not end in NUL, or when it is the
      printing of changes with distinct new paths up to a record for which f is due. */
  lemma {:induction false} RawFailsExactly(data: Bytes, utf8: Bytes -> bool, f: Failure)
    ensures RawChanges(data, utf8) == Err(f) <==>
              if data != [] && data[|data| - 1] != NUL then f == OutputInvalid
              else exists parts, cs, tails, rest ::
                     AllFree(parts, NUL) && data == Terminated(parts) && BreaksAfter(parts, [], cs, tails, rest, utf8, f)
  {
    hide BreaksAfter, AllFree, Terminated, ParseRaw, Split;
    if data == [] || data[|data| - 1] == NUL {
      var parts := SplitZ(data).value;
      SplitZExactly(data, parts);
      if ParseRaw(parts, [], utf8) == Err(f) {
        assert Distinct(NewPaths([]));
        var cs, tails, rest := RefusedIsBroken(parts, [], utf8, f);
      }
      forall other, cs, tails, rest | AllFree(other, NUL) && data == Terminated(other) && BreaksAfter(other, [], cs, tails, rest, utf8, f)
        ensures ParseRaw(parts, [], utf8) == Err(f)
      {
        SplitZExactly(data, other);
        BrokenIsRefused(other, [], cs, tails, rest, utf8, f);
      }
    }
  }

  /** The loop of the raw parser. */
  method ParseRawZ(data: Bytes, utf8: Bytes -> bool) returns (r: Result<seq<GitChange>>)
    ensures r == RawChanges(data, utf8)
    ensures forall cs :: r == Ok(cs) <==> Distinct(NewPaths(cs)) && exists tails :: PrintsRaw(data, cs, tails, utf8)
  {
    forall cs ensures RawChanges(data, utf8) == Ok(cs) <==> Distinct(NewPaths(cs)) && exists tails :: PrintsRaw(data, cs, tails, utf8) {
      RawExactly(data, cs, utf8);
    }
    hide PrintsRaw, Distinct, SplitZ, NewPaths;
    var split := SplitZ(data);
    if split.Err? { return Err(split.failure); }
    var parts := split.value;
    var changes: seq<GitChange> := [];
    var seen: set<Bytes> := {};
    var index := 0;
    assert parts[index..] == parts;
    while index < |parts|
      invariant 0 <= index <= |parts|
      invariant RawChanges(data, utf8) == ParseRaw(parts[index..], changes, utf8)
      invariant forall path :: path in seen <==> path in NewPaths(changes)
    {
      ghost var rest := parts[index..];
      assert rest[0] == parts[index];
      var meta := ReadMeta(parts[index]);
      if meta.Err? { return Err(meta.failure); }
      var m := meta.value;
      var letter := m.status[0];
      var change;
      var used;
      if TwoPaths(letter) {
        if index + 2 >= |parts| { return Err(OutputInvalid); }
        var first := DecodePath(parts[index + 1], utf8);
        if first.Err? { return Err(first.failure); }
        var path := DecodePath(parts[index + 2], utf8);
        if path.Err? { return Err(path.failure); }
        change := GitChange(letter, m.oldMode, m.newMode, m.oldSha, m.newSha, Some(first.value), path.value);
        used := 3;
      } else {
        if index + 1 >= |parts| { return Err(OutputInvalid); }
        var path := DecodePath(parts[index + 1], utf8);
        if path.Err? { return Err(path.failure); }
        change := GitChange(letter, m.oldMode, m.newMode, m.oldSha, m.newSha, None, path.value);
        used := 2;
      }
      assert ReadRecord(rest, utf8) == Ok((change, m, used));
      if change.newPath in seen { return Err(OutputInvalid); }
      assert rest[used..] == parts[index + used..];
      NewPathsAppend(changes, change);
      index := index + used;
      seen := seen + {change.newPath};
      changes := changes + [change];
    }
    return Ok(changes);
  }

  // ---------------------------------------------------------------- git ls-files -s -z

  /** ASCII white space as str.split() sees it. */
  predicate White(c: byte) { 9 <= c <= 13 || 28 <= c <= 32 }

  predicate AllWhite(s: Bytes) { forall i :: 0 <= i < |s| ==> White(s[i]) }

  predicate Solid(s: Bytes) { forall i :: 0 <= i < |s| ==> !White(s[i]) }

  function WordEnd(s: Bytes): (n: nat)
    ensures n <= |s| && (forall i :: 0 <= i < n ==> !White(s[i])) && (n < |s| ==> White(s[n]))
  {
    if s == [] || White(s[0]) then 0 else 1 + WordEnd(s[1..])
  }

  /** str.split() without an argument. */
  function Words(s: Bytes): seq<Bytes> {
    if s == [] then []
    else if White(s[0]) then Words(s[1..])
    else
      var n := WordEnd(s);
      [s[..n]] + Words(s[n..])
  }

  /** Words with white space around them. */
  ghost function Interleave(words: seq<Bytes>, gaps: seq<Bytes>): Bytes
    requires |gaps| == |words| + 1
  {
    if words == [] then gaps[0] else gaps[0] + words[0] + Interleave(words[1..], gaps[1..])
  }

  ghost predicate Spaced(s: Bytes, words: seq<Bytes>, gaps: seq<Bytes>) {
    && |gaps| == |words| + 1
    && (forall i :: 0 <= i < |gaps| ==> AllWhite(gaps[i]))
    && (forall i :: 0 < i < |words| ==> gaps[i] != [])
    && (forall i :: 0 <= i < |words| ==> words[i] != [] && Solid(words[i]))
    && s == Interleave(words, gaps)
  }

  ghost function Gaps(s: Bytes): (gaps: seq<Bytes>)
    ensures gaps != []
  {
    if s == [] then [[]]
    else if White(s[0]) then
      var g := Gaps(s[1..]);
      [[s[0]] + g[0]] + g[1..]
    else [[]] + Gaps(s[WordEnd(s)..])
  }

  lemma {:induction false} SpaceBefore(c: byte, s: Bytes, words: seq<Bytes>, gaps: seq<Bytes>)
    requires Spaced(s, words, gaps) && White(c)
    ensures Spaced([c] + s, words, [[c] + gaps[0]] + gaps[1..])
  {
    var more := [[c] + gaps[0]] + gaps[1..];
    assert more[1..] == gaps[1..];
    forall i | 0 <= i < |more| ensures AllWhite(more[i]) {
      assert AllWhite(gaps[i]);
    }
    if words != [] {
      var rest := Interleave(words[1..], gaps[1..]);
      assert [c] + (gaps[0] + words[0] + rest) == [c] + gaps[0] + words[0] + rest;
    }
  }

  lemma {:induction false} WordBefore(word: Bytes, s: Bytes, words: seq<Bytes>, gaps: seq<Bytes>)
    requires Spaced(s, words, gaps) && word != [] && Solid(word) && (words != [] ==> gaps[0] != [])
    ensures Spaced(word + s, [word] + words, [[]] + gaps)
  {
    var all, more := [word] + words, [[]] + gaps;
    assert all[1..] == words && more[1..] == gaps;
    forall i | 0 <= i < |more| ensures AllWhite(more[i]) {
      if i > 0 { assert AllWhite(gaps[i - 1]); }
    }
    forall i | 0 <= i < |all| ensures all[i] != [] && Solid(all[i]) {
      if i > 0 { assert words[i - 1] != [] && Solid(words[i - 1]); }
    }
    assert more[0] + all[0] + Interleave(words, gaps) == word + s;
  }

  lemma {:induction false} WordsAreSpaced(s: Bytes)
    ensures Spaced(s, Words(s), Gaps(s))
    ensures s != [] && White(s[0]) ==> Gaps(s)[0] != []
    decreases |s|
  {
    if s != [] {
      if White(s[0]) {
        WordsAreSpaced(s[1..]);
        SpaceBefore(s[0], s[1..], Words(s[1..]), Gaps(s[1..]));
        assert s == [s[0]] + s[1..];
      } else {
        var n := WordEnd(s);
        var rest := s[n..];
        WordsAreSpaced(rest);
        assert s == s[..n] + rest;
        WordBefore(s[..n], rest, Words(rest), Gaps(rest));
      }
    } else {
      assert Spaced([], [], [[]]);
    }
  }

  lemma {:induction false} WordEndAt(word: Bytes, rest: Bytes)
    requires word != [] && Solid(word) && (rest == [] || White(rest[0]))
    ensures WordEnd(word + rest) == |word|
  {
    var s := word + rest;
    assert forall i :: 0 <= i < |word| ==> s[i] == word[i];
    assert rest != [] ==> s[|word|] == rest[0];
  }

  lemma {:induction false} SpacedIsSplit(s: Bytes, words: seq<Bytes>, gaps: seq<Bytes>)
    requires Spaced(s, words, gaps)
    ensures Words(s) == words
    decreases |words|, |gaps[0]|
  {
    if gaps[0] != [] {
      var shorter := [gaps[0][1..]] + gaps[1..];
      assert shorter[1..] == gaps[1..] && gaps[0] == [gaps[0][0]] + gaps[0][1..];
      assert AllWhite(gaps[0]) && White(gaps[0][0]);
      assert s[0] == gaps[0][0] && s[1..] == Interleave(words, shorter);
      forall i | 0 <= i < |shorter| ensures AllWhite(shorter[i]) {
        if i > 0 { assert shorter[i] == gaps[i]; }
      }
      SpacedIsSplit(s[1..], words, shorter);
    } else if words != [] {
      var rest := Interleave(words[1..], gaps[1..]);
      assert s == words[0] + rest;
      assert AllWhite(gaps[1]) && Solid(words[0]);
      assert words[1..] != [] ==> gaps[1] != [];
      WordEndAt(words[0], rest);
      assert White(s[0]) == false by { assert s[0] == words[0][0]; }
      assert s[..|words[0]|] == words[0] && s[|words[0]|..] == rest;
      SpacedIsSplit(rest, words[1..], gaps[1..]);
      assert words == [words[0]] + words[1..];
    }
  }

  /** str.split() yields exactly the words that white space separates. */
  lemma {:induction false} WordsExactly(s: Bytes, words: seq<Bytes>)
    ensures Words(s) == words <==> exists gaps :: Spaced(s, words, gaps)
  {
    WordsAreSpaced(s);
    if exists gaps :: Spaced(s, words, gaps) {
      var gaps :| Spaced(s, words, gaps);
      SpacedIsSplit(s, words, gaps);
    }
  }

  datatype Entry = Entry(mode: Bytes, sha: Bytes, path: Bytes)

  function ShaLength(sha256: bool): nat { if sha256 then 64 else 40 }

  /** 000000, 100644, 100755, 120000 or 160000. */
  predicate KnownMode(mode: Bytes) {
    || mode == [48, 48, 48, 48, 48, 48] || mode == [49, 48, 48, 54, 52, 52] || mode == [49, 48, 48, 55, 53, 53]
    || mode == [49, 50, 48, 48, 48, 48] || mode == [49, 54, 48, 48, 48, 48]
  }

  function FirstTab(s: Bytes): (n: nat)
    ensures n <= |s| && (forall i :: 0 <= i < n ==> s[i] != TAB) && (n < |s| ==> s[n] == TAB)
  {
    if s == [] || s[0] == TAB then 0 else 1 + FirstTab(s[1..])
  }

  function ReadEntry(record: Bytes, shaLength: nat, utf8: Bytes -> bool): Result<Entry> {
    var tab := FirstTab(record);
    if tab == |record| then Err(OutputInvalid)
    else
      var meta := record[..tab];
      if !Ascii(meta) || |Words(meta)| != 3 then Err(OutputInvalid)
      else
        var fields := Words(meta);
        if !(OctalMode(fields[0]) && KnownMode(fields[0])) then Err(OutputInvalid)
        else if !(|fields[1]| == shaLength && Hex(fields[1])) then Err(OutputInvalid)
        else if fields[2] != [ZERO] then Err(UnmergedIndex)
        else
          match DecodePath(record[tab + 1..], utf8)
          case Err(e) => Err(e)
          case Ok(path) => Ok(Entry(fields[0], fields[1], path))
  }

  ghost predicate EntryOk(e: Entry, shaLength: nat, utf8: Bytes -> bool) {
    KnownMode(e.mode) && |e.sha| == shaLength && Hex(e.sha) && PathOk(e.path, utf8)
  }

  /** The record is mode, object id and stage 0, white space between them, a tab and the path. */
  ghost predicate IsEntry(record: Bytes, e: Entry, gaps: seq<Bytes>, meta: Bytes) {
    && Spaced(meta, [e.mode, e.sha, [ZERO]], gaps)
    && Free(meta, TAB)
    && record == meta + [TAB] + e.path
  }

  lemma {:induction false} FirstTabAt(meta: Bytes, path: Bytes)
    requires Free(meta, TAB)
    ensures FirstTab(meta + [TAB] + path) == |meta|
  {
    var s := meta + [TAB] + path;
    assert forall i :: 0 <= i < |meta| ==> s[i] == meta[i];
    assert s[|meta|] == TAB;
  }

  lemma {:induction false} InterleaveAscii(words: seq<Bytes>, gaps: seq<Bytes>)
    requires |gaps| == |words| + 1
    requires forall i :: 0 <= i < |words| ==> Ascii(words[i])
    requires forall i :: 0 <= i < |gaps| ==> AllWhite(gaps[i])
    ensures Ascii(Interleave(words, gaps))
  {
    assert AllWhite(gaps[0]);
    if words != [] {
      assert Ascii(words[0]);
      InterleaveAscii(words[1..], gaps[1..]);
    }
  }

  lemma {:induction false} SpacedIsAscii(e: Entry, gaps: seq<Bytes>, meta: Bytes, shaLength: nat, utf8: Bytes -> bool)
    requires EntryOk(e, shaLength, utf8) && Spaced(meta, [e.mode, e.sha, [ZERO]], gaps)
    ensures Ascii(meta)
  {
    var words := [e.mode, e.sha, [ZERO]];
    InterleaveAscii(words, gaps);
  }

  lemma {:induction false} EntryIsRead(record: Bytes, e: Entry, gaps: seq<Bytes>, meta: Bytes, shaLength: nat, utf8: Bytes -> bool)
    requires EntryOk(e, shaLength, utf8) && IsEntry(record, e, gaps, meta)
    ensures ReadEntry(record, shaLength, utf8) == Ok(e)
  {
    FirstTabAt(meta, e.path);
    SpacedIsSplit(meta, [e.mode, e.sha, [ZERO]], gaps);
    SpacedIsAscii(e, gaps, meta, shaLength, utf8);
    assert record[..|meta|] == meta && record[|meta| + 1..] == e.path;
    hide Spaced, Words, Ascii, KnownMode, OctalMode, Hex, FirstTab, Free;
  }

  lemma {:induction false} ReadIsEntry(record: Bytes, e: Entry, shaLength: nat, utf8: Bytes -> bool)
    requires ReadEntry(record, shaLength, utf8) == Ok(e)
    ensures EntryOk(e, shaLength, utf8)
    ensures exists gaps, meta :: IsEntry(record, e, gaps, meta)
  {
    var tab := FirstTab(record);
    var meta := record[..tab];
    WordsAreSpaced(meta);
    hide Spaced, Words, Ascii, KnownMode, OctalMode, Hex, FirstTab;
    assert Words(meta) == [e.mode, e.sha, [ZERO]];
    assert record == meta + [TAB] + record[tab + 1..];
    assert IsEntry(record, e, Gaps(meta), meta);
  }

  ghost predicate Lists(record: Bytes, e: Entry, shaLength: nat, utf8: Bytes -> bool) {
    EntryOk(e, shaLength, utf8) && exists gaps, meta :: IsEntry(record, e, gaps, meta)
  }

  /** A record is read exactly when it has the shape of a stage-0 index entry. */
  lemma {:induction false} EntryExactly(record: Bytes, e: Entry, shaLength: nat, utf8: Bytes -> bool)
    ensures ReadEntry(record, shaLength, utf8) == Ok(e) <==> Lists(record, e, shaLength, utf8)
  {
    hide ReadEntry, EntryOk, IsEntry;
    if ReadEntry(record, shaLength, utf8) == Ok(e) { ReadIsEntry(record, e, shaLength, utf8); }
    if Lists(record, e, shaLength, utf8) {
      var gaps, meta :| IsEntry(record, e, gaps, meta);
      EntryIsRead(record, e, gaps, meta, shaLength, utf8);
    }
  }

  lemma {:induction false} CharactersTell(a: Bytes, b: Bytes)
    ensures Characters(a) == Characters(b) <==> a == b
  {
    if Characters(a) == Characters(b) {
      forall i | 0 <= i < |a| ensures a[i] == b[i] { assert Characters(a)[i] == Characters(b)[i]; }
    }
  }

  /** The known modes and the white space, spelled as characters. */
  lemma {:induction false} ModesInCharacters(mode: Bytes, c: byte)
    ensures KnownMode(mode) <==>
              || Characters(mode) == "000000" || Characters(mode) == "100644" || Characters(mode) == "100755"
              || Characters(mode) == "120000" || Characters(mode) == "160000"
    ensures White(c) <==> c as char in ['\t', '\n', '\U{0B}', '\U{0C}', '\r', '\U{1C}', '\U{1D}', '\U{1E}', '\U{1F}', ' ']
  {
    var modes := [[48, 48, 48, 48, 48, 48], [49, 48, 48, 54, 52, 52], [49, 48, 48, 55, 53, 53], [49, 50, 48, 48, 48, 48], [49, 54, 48, 48, 48, 48]];
    assert Characters(modes[0]) == "000000" && Characters(modes[1]) == "100644" && Characters(modes[2]) == "100755";
    assert Characters(modes[3]) == "120000" && Characters(modes[4]) == "160000";
    forall k | 0 <= k < 5 ensures Characters(mode) == Characters(modes[k]) <==> mode == modes[k] { CharactersTell(mode, modes[k]); }
    hide Characters;
  }

  /** The record is an entry with this mode, object id and stage. */
  ghost predicate IsStaged(record: Bytes, e: Entry, stage: Bytes, gaps: seq<Bytes>, meta: Bytes) {
    Spaced(meta, [e.mode, e.sha, stage], gaps) && Ascii(stage) && Free(meta, TAB) && record == meta + [TAB] + e.path
  }

  ghost predicate Staged(record: Bytes, e: Entry, stage: Bytes, shaLength: nat) {
    && KnownMode(e.mode) && |e.sha| == shaLength && Hex(e.sha)
    && exists gaps, meta :: IsStaged(record, e, stage, gaps, meta)
  }

  lemma {:induction false} StagedIsRead(record: Bytes, e: Entry, stage: Bytes, gaps: seq<Bytes>, meta: Bytes, shaLength: nat, utf8: Bytes -> bool)
    requires KnownMode(e.mode) && |e.sha| == shaLength && Hex(e.sha) && IsStaged(record, e, stage, gaps, meta)
    ensures ReadEntry(record, shaLength, utf8) ==
              if stage != [ZERO] then Err(UnmergedIndex)
              else if DecodePath(e.path, utf8).Err? then Err(DecodePath(e.path, utf8).failure) else Ok(e)
  {
    FirstTabAt(meta, e.path);
    SpacedIsSplit(meta, [e.mode, e.sha, stage], gaps);
    InterleaveAscii([e.mode, e.sha, stage], gaps);
    assert record[..|meta|] == meta && record[|meta| + 1..] == e.path;
    hide Spaced, Words, Ascii, Hex, FirstTab, Free;
  }

  lemma {:induction false} ReadIsStaged(record: Bytes, shaLength: nat, utf8: Bytes -> bool) returns (e: Entry, stage: Bytes)
    requires ReadEntry(record, shaLength, utf8) == Err(UnmergedIndex) || ReadEntry(record, shaLength, utf8) == Err(UnsafePath)
    ensures Staged(record, e, stage, shaLength)
  {
    var tab := FirstTab(record);
    var meta := record[..tab];
    WordsAreSpaced(meta);
    WordsAreAscii(meta);
    hide Spaced, Words, Ascii, KnownMode, OctalMode, Hex, FirstTab;
    var words := Words(meta);
    e, stage := Entry(words[0], words[1], record[tab + 1..]), words[2];
    assert words == [e.mode, e.sha, stage];
    assert record == meta + [TAB] + e.path;
    assert IsStaged(record, e, stage, Gaps(meta), meta);
  }

  lemma {:induction false} WordsAreAscii(s: Bytes)
    requires Ascii(s)
    ensures forall i :: 0 <= i < |Words(s)| ==> Ascii(Words(s)[i])
    decreases |s|
  {
    if s != [] {
      if White(s[0]) { WordsAreAscii(s[1..]); } else { WordsAreAscii(s[WordEnd(s)..]); }
    }
  }

  /** An entry is refused as unmerged exactly when everything before its path is well-formed and its
      stage is not 0, and as unsafe exactly when its stage is 0 and its path does not decode. */
  lemma {:induction false} EntryFailsExactly(record: Bytes, shaLength: nat, utf8: Bytes -> bool)
    ensures ReadEntry(record, shaLength, utf8) == Err(UnmergedIndex) <==>
              exists e, stage :: Staged(record, e, stage, shaLength) && stage != [ZERO]
    ensures ReadEntry(record, shaLength, utf8) == Err(UnsafePath) <==>
              exists e :: Staged(record, e, [ZERO], shaLength) && !utf8(e.path)
  {
    hide ReadEntry, IsStaged, KnownMode, Hex;
    if ReadEntry(record, shaLength, utf8) == Err(UnmergedIndex) || ReadEntry(record, shaLength, utf8) == Err(UnsafePath) {
      var e, stage := ReadIsStaged(record, shaLength, utf8);
    }
    forall e, stage | Staged(record, e, stage, shaLength)
      ensures ReadEntry(record, shaLength, utf8) ==
                if stage != [ZERO] then Err(UnmergedIndex)
                else if DecodePath(e.path, utf8).Err? then Err(DecodePath(e.path, utf8).failure) else Ok(e)
    {
      var gaps, meta :| IsStaged(record, e, stage, gaps, meta);
      StagedIsRead(record, e, stage, gaps, meta, shaLength, utf8);
    }
  }

  function EntryPaths(es: seq<Entry>): (paths: seq<Bytes>)
    ensures |paths| == |es| && forall i :: 0 <= i < |es| ==> paths[i] == es[i].path
  {
    seq(|es|, i requires 0 <= i < |es| => es[i].path)
  }

  lemma {:induction false} EntryPathsAppend(es: seq<Entry>, e: Entry)
    ensures EntryPaths(es + [e]) == EntryPaths(es) + [e.path]
    ensures Distinct(EntryPaths(es + [e])) <==> Distinct(EntryPaths(es)) && e.path !in EntryPaths(es)
  {
    assert EntryPaths(es + [e]) == EntryPaths(es) + [e.path];
    DistinctAppend(EntryPaths(es), e.path);
  }

  /** The entries of the first k records, or the first failure. */
  function ParseEntries(records: seq<Bytes>, k: nat, shaLength: nat, utf8: Bytes -> bool): Result<seq<Entry>>
    requires k <= |records|
  {
    if k == 0 then Ok([])
    else
      match ParseEntries(records, k - 1, shaLength, utf8)
      case Err(e) => Err(e)
      case Ok(es) =>
        match ReadEntry(records[k - 1], shaLength, utf8)
        case Err(e) => Err(e)
        case Ok(e) => if e.path in EntryPaths(es) then Err(OutputInvalid) else Ok(es + [e])
  }

  ghost predicate AllRead(records: seq<Bytes>, es: seq<Entry>, shaLength: nat, utf8: Bytes -> bool)
    requires |es| <= |records|
  {
    forall i :: 0 <= i < |es| ==> ReadEntry(records[i], shaLength, utf8) == Ok(es[i])
  }

  lemma {:induction false} EntriesExactly(records: seq<Bytes>, k: nat, es: seq<Entry>, shaLength: nat, utf8: Bytes -> bool)
    requires k <= |records|
    ensures ParseEntries(records, k, shaLength, utf8) == Ok(es) <==>
              |es| == k && AllRead(records, es, shaLength, utf8) && Distinct(EntryPaths(es))
  {
    hide ReadEntry, EntryPaths;
    if k > 0 {
      var before := ParseEntries(records, k - 1, shaLength, utf8);
      if before.Ok? { EntriesExactly(records, k - 1, before.value, shaLength, utf8); }
      if |es| == k {
        var rest, e := es[..k - 1], es[k - 1];
        assert es == rest + [e];
        EntriesExactly(records, k - 1, rest, shaLength, utf8);
        EntryPathsAppend(rest, e);
      }
      if ParseEntries(records, k, shaLength, utf8) == Ok(es) {
        assert es[..k - 1] == before.value;
      }
    }
  }

  function LsFiles(data: Bytes, sha256: bool, utf8: Bytes -> bool): Result<seq<Entry>> {
    match SplitZ(data)
    case Err(e) => Err(e)
    case Ok(records) => ParseEntries(records, |records|, ShaLength(sha256), utf8)
  }

  /** data lists these stage-0 entries, one NUL-terminated record each. */
  ghost predicate ListsEntries(data: Bytes, es: seq<Entry>, records: seq<Bytes>, shaLength: nat, utf8: Bytes -> bool) {
    && |records| == |es| && AllFree(records, NUL) && data == Terminated(records)
    && forall i :: 0 <= i < |es| ==> Lists(records[i], es[i], shaLength, utf8)
  }

  /** Index listings are accepted exactly when they list well-formed stage-0 entries with distinct paths. */
  lemma {:induction false} LsFilesExactly(data: Bytes, es: seq<Entry>, sha256: bool, utf8: Bytes -> bool)
    ensures LsFiles(data, sha256, utf8) == Ok(es) <==>
              Distinct(EntryPaths(es)) && exists records :: ListsEntries(data, es, records, ShaLength(sha256), utf8)
    ensures forall i :: LsFiles(data, sha256, utf8) == Ok(es) && 0 <= i < |es| ==> |es[i].sha| == if sha256 then 64 else 40
  {
    var length := ShaLength(sha256);
    if exists records :: ListsEntries(data, es, records, length, utf8) {
      var records :| ListsEntries(data, es, records, length, utf8);
      assert forall i :: 0 <= i < |es| ==> Lists(records[i], es[i], length, utf8);
    }
    hide ReadEntry, Lists, Terminated, AllFree, EntryPaths, Distinct, SplitZ, ParseEntries;
    if LsFiles(data, sha256, utf8) == Ok(es) {
      var records := SplitZ(data).value;
      SplitZExactly(data, records);
      EntriesExactly(records, |records|, es, length, utf8);
      forall i | 0 <= i < |es| ensures Lists(records[i], es[i], length, utf8) {
        EntryExactly(records[i], es[i], length, utf8);
      }
      assert ListsEntries(data, es, records, length, utf8);
    }
    if Distinct(EntryPaths(es)) && exists records :: ListsEntries(data, es, records, length, utf8) {
      var records :| ListsEntries(data, es, records, length, utf8);
      SplitZExactly(data, records);
      forall i | 0 <= i < |es| ensures ReadEntry(records[i], length, utf8) == Ok(es[i]) {
        EntryExactly(records[i], es[i], length, utf8);
      }
      EntriesExactly(records, |records|, es, length, utf8);
    }
  }

  /** The loop of the index parser. */
  method ParseLsFilesZ(data: Bytes, sha256: bool, utf8: Bytes -> bool) returns (r: Result<seq<Entry>>)
    ensures r == LsFiles(data, sha256, utf8)
    ensures forall es :: r == Ok(es) <==>
              Distinct(EntryPaths(es)) && exists records :: ListsEntries(data, es, records, ShaLength(sha256), utf8)
  {
    forall es
      ensures LsFiles(data, sha256, utf8) == Ok(es) <==>
                Distinct(EntryPaths(es)) && exists records :: ListsEntries(data, es, records, ShaLength(sha256), utf8)
    {
      LsFilesExactly(data, es, sha256, utf8);
    }
    hide ListsEntries, Distinct, SplitZ, EntryPaths, ReadEntry;
    var shaLength := ShaLength(sha256);
    var split := SplitZ(data);
    if split.Err? { return Err(split.failure); }
    var records := split.value;
    var entries: seq<Entry> := [];
    var seen: set<Bytes> := {};
    for k := 0 to |records|
      invariant ParseEntries(records, k, shaLength, utf8) == Ok(entries)
      invariant forall path :: path in seen <==> path in EntryPaths(entries)
    {
      var read := ReadEntry(records[k], shaLength, utf8);
      if read.Err? {
        FailureStays(records, k + 1, shaLength, utf8);
        return Err(read.failure);
      }
      if read.value.path in seen {
        FailureStays(records, k + 1, shaLength, utf8);
        return Err(OutputInvalid);
      }
      EntryPathsAppend(entries, read.value);
      seen := seen + {read.value.path};
      entries := entries + [read.value];
    }
    return Ok(entries);
  }

  /** The first failure decides. */
  lemma {:induction false} FailureStays(records: seq<Bytes>, k: nat, shaLength: nat, utf8: Bytes -> bool)
    requires k <= |records| && ParseEntries(records, k, shaLength, utf8).Err?
    ensures ParseEntries(records, |records|, shaLength, utf8) == ParseEntries(records, k, shaLength, utf8)
    decreases |records| - k
  {
    if k < |records| { FailureStays(records, k + 1, shaLength, utf8); }
  }

  /** The first k records are entries with distinct paths, and the next one is refused with failure f
      or has a path among them. */
  ghost predicate StopsAfter(records: seq<Bytes>, es: seq<Entry>, shaLength: nat, utf8: Bytes -> bool, f: Failure) {
    && |es| < |records| && AllRead(records, es, shaLength, utf8) && Distinct(EntryPaths(es))
    && var next := ReadEntry(records[|es|], shaLength, utf8);
       next == Err(f) || (f == OutputInvalid && next.Ok? && next.value.path in EntryPaths(es))
  }

  lemma {:induction false} EntriesFail(records: seq<Bytes>, k: nat, shaLength: nat, utf8: Bytes -> bool, f: Failure) returns (es: seq<Entry>)
    requires k <= |records| && ParseEntries(records, k, shaLength, utf8) == Err(f)
    ensures StopsAfter(records, es, shaLength, utf8, f)
  {
    hide ReadEntry, EntryPaths, Distinct;
    var before := ParseEntries(records, k - 1, shaLength, utf8);
    if before.Err? {
      es := EntriesFail(records, k - 1, shaLength, utf8, f);
    } else {
      es := before.value;
      EntriesExactly(records, k - 1, es, shaLength, utf8);
    }
  }

  /** An index listing is refused with failure f exactly when it does not end in NUL, or when f is due
      for the first record that is no entry or repeats a path. */
  lemma {:induction false} LsFilesFailsExactly(data: Bytes, sha256: bool, utf8: Bytes -> bool, f: Failure)
    ensures LsFiles(data, sha256, utf8) == Err(f) <==>
              if data != [] && data[|data| - 1] != NUL then f == OutputInvalid
              else exists records, es ::
                     AllFree(records, NUL) && data == Terminated(records) && StopsAfter(records, es, ShaLength(sha256), utf8, f)
  {
    var length := ShaLength(sha256);
    hide StopsAfter, AllFree, Terminated, ParseEntries, Split;
    if data == [] || data[|data| - 1] == NUL {
      var records := SplitZ(data).value;
      SplitZExactly(data, records);
      if LsFiles(data, sha256, utf8) == Err(f) {
        var es := EntriesFail(records, |records|, length, utf8, f);
      }
      forall other, es | AllFree(other, NUL) && data == Terminated(other) && StopsAfter(other, es, length, utf8, f)
        ensures LsFiles(data, sha256, utf8) == Err(f)
      {
        SplitZExactly(data, other);
        StoppedIsRefused(other, es, length, utf8, f);
      }
    }
  }

  lemma {:induction false} StoppedIsRefused(records: seq<Bytes>, es: seq<Entry>, shaLength: nat, utf8: Bytes -> bool, f: Failure)
    requires StopsAfter(records, es, shaLength, utf8, f)
    ensures ParseEntries(records, |records|, shaLength, utf8) == Err(f)
  {
    hide ReadEntry, EntryPaths, Distinct, AllRead;
    EntriesExactly(records, |es|, es, shaLength, utf8);
    FailureStays(records, |es| + 1, shaLength, utf8);
  }
}
