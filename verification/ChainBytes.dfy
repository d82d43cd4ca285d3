/**
 The chain file as bytes: one canonical line per record, each ended by a newline.
 Canonical JSON enters as an encode/decode pair; everything else is done here.
 */
module ChainBytes {
  import opened Text
  import opened ChainRecord
  import opened ChainWalker
  import opened ChainHistory

  /** `digest` is SHA-256 over the canonical text; `decode` refuses every line that is not
      exactly the canonical text of a record. */
  datatype Codec = Codec(
    digest: Content -> string,
    encode: Record -> string,
    decode: string -> Option<Record>)

  ghost predicate Faithful(codec: Codec) {
    && (forall r :: '\n' !in codec.encode(r) && codec.decode(codec.encode(r)) == Some(r))
    && (forall line, r :: codec.decode(line) == Some(r) ==> codec.encode(r) == line)
  }

  datatype ReadCode =
    | Unreadable | TornLine | DigestBroken | SeqGapped | SchemaWrong | SessionWrong
    | IdDuplicated | RecordIllegal | TransitionIllegal

  /** `_read_code`. */
  function ReadCodeOf(reason: Reason): ReadCode {
    match reason
    case WrongSchema => SchemaWrong
    case WrongSession => SessionWrong
    case DuplicateId => IdDuplicated
    case SeqGap => SeqGapped
    case DigestBreak => DigestBroken
    case IllegalTransition => TransitionIllegal
    case IllegalResolutionBasis => TransitionIllegal
    case NullCandidateDecisionBasis => TransitionIllegal
    case _ => RecordIllegal
  }

  /** The length of the text before the first newline, or of the whole text without one. */
  function LineLength(raw: string): (n: nat)
    ensures n <= |raw|
    ensures forall i :: 0 <= i < n ==> raw[i] != '\n'
    ensures n < |raw| ==> raw[n] == '\n'
  {
    if raw == "" || raw[0] == '\n' then 0 else 1 + LineLength(raw[1..])
  }

  /** `_parse_chain_bytes`: None is the torn-line error. */
  function Parse(codec: Codec, raw: string): Option<seq<Record>>
    decreases |raw|
  {
    if raw == "" then Some([])
    else
      var n := LineLength(raw);
      if n == |raw| then None
      else
        match codec.decode(raw[..n])
        case None => None
        case Some(r) =>
          match Parse(codec, raw[n + 1..])
          case None => None
          case Some(rest) => Some([r] + rest)
  }

  function Render(codec: Codec, rs: seq<Record>): string {
    if rs == [] then "" else codec.encode(rs[0]) + "\n" + Render(codec, rs[1..])
  }

  lemma {:induction false} LineLengthOfLine(line: string, rest: string)
    requires '\n' !in line
    ensures LineLength(line + "\n" + rest) == |line|
  {
    var raw := line + "\n" + rest;
    if line != "" {
      assert raw[1..] == line[1..] + "\n" + rest;
      LineLengthOfLine(line[1..], rest);
    }
  }

  /** The first line is read on its own. */
  lemma ParseLine(codec: Codec, line: string, rest: string, r: Record)
    requires '\n' !in line && codec.decode(line) == Some(r)
    ensures Parse(codec, line + "\n" + rest) ==
            match Parse(codec, rest) case None => None case Some(rs) => Some([r] + rs)
  {
    var raw := line + "\n" + rest;
    LineLengthOfLine(line, rest);
    assert raw[..|line|] == line && raw[|line| + 1..] == rest;
  }

  /** Reading back what was written gives the records, and only the written text reads so. */
  lemma {:induction false} ParseRender(codec: Codec, rs: seq<Record>)
    requires Faithful(codec)
    ensures Parse(codec, Render(codec, rs)) == Some(rs)
  {
    if rs != [] {
      ParseRender(codec, rs[1..]);
      hide Parse;
      ParseLine(codec, codec.encode(rs[0]), Render(codec, rs[1..]), rs[0]);
      assert rs == [rs[0]] + rs[1..];
    }
  }

  lemma {:induction false} RenderParse(codec: Codec, raw: string)
    requires Faithful(codec)
    ensures Parse(codec, raw).Some? ==> Render(codec, Parse(codec, raw).value) == raw
    decreases |raw|
  {
    if Parse(codec, raw).Some? && raw != "" {
      var n := LineLength(raw);
      var line, rest := raw[..n], raw[n + 1..];
      var r := codec.decode(line).value;
      RenderParse(codec, rest);
      hide Parse;
      assert raw == line + "\n" + rest;
      assert codec.encode(r) == line;
      ParseLine(codec, line, rest, r);
      var rs := Parse(codec, rest).value;
      assert ([r] + rs)[1..] == rs;
    }
  }

  lemma {:induction false} RenderConcat(codec: Codec, rs: seq<Record>, qs: seq<Record>)
    ensures Render(codec, rs + qs) == Render(codec, rs) + Render(codec, qs)
  {
    if rs == [] {
      assert rs + qs == qs;
    } else {
      assert (rs + qs)[1..] == rs[1..] + qs;
      RenderConcat(codec, rs[1..], qs);
    }
  }

  /** The parsing loop: line by line, stopping at the first line that is no record. */
  method ParseChain(codec: Codec, raw: string) returns (res: Option<seq<Record>>)
    ensures res == Parse(codec, raw)
  {
    var rest, records := raw, [];
    assert forall tail: seq<Record> :: [] + tail == tail;
    while rest != ""
      invariant Parse(codec, raw) ==
                match Parse(codec, rest) case None => None case Some(tail) => Some(records + tail)
      decreases |rest|
    {
      var n := LineLength(rest);
      if n == |rest| { return None; }
      var decoded := codec.decode(rest[..n]);
      if decoded.None? { return None; }
      assert forall tail :: records + ([decoded.value] + tail) == (records + [decoded.value]) + tail;
      records := records + [decoded.value];
      rest := rest[n + 1..];
    }
    assert records + [] == records;
    return Some(records);
  }

  datatype Loaded = Chain(state: State) | Unread(code: ReadCode)

  /** The bytes of the file; an absent file reads as empty. */
  function Bytes(file: Option<string>): string {
    if file.Some? then file.value else ""
  }

  /** `_load`: parse, then walk. */
  function Load(codec: Codec, file: Option<string>): Loaded {
    match Parse(codec, Bytes(file))
    case None => Unread(TornLine)
    case Some(rs) =>
      match Walk(codec.digest, rs)
      case Bad(reason) => Unread(ReadCodeOf(reason))
      case Ok(s) => Chain(s)
  }

  /** The bytes on disk hold exactly the accepted chain that ends in `s`. */
  ghost predicate Holds(codec: Codec, file: Option<string>, s: State) {
    Reaches(codec.digest, s.log.records, s)
    && Bytes(file) == Render(codec, s.log.records)
  }

  /** Loading succeeds with `s` exactly when the bytes hold the chain of `s`: the file and
      the chain state determine each other. */
  lemma LoadIsHolds(codec: Codec, file: Option<string>, s: State)
    requires Faithful(codec)
    ensures Load(codec, file) == Chain(s) <==> Holds(codec, file, s)
  {
    hide Step, Faithful, Reaches, Indexed, Numbered;
    var raw := Bytes(file);
    RenderParse(codec, raw);
    if Load(codec, file) == Chain(s) {
      var rs := Parse(codec, raw).value;
      WalkIsReaches(codec.digest, rs, s);
      ReachesIndexed(codec.digest, rs, s);
    }
    if Holds(codec, file, s) {
      ParseRender(codec, s.log.records);
      WalkIsReaches(codec.digest, s.log.records, s);
    }
  }
}
