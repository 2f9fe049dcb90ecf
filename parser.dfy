/**
 * The wire protocol shared by master and partition (src/parser.rs): decoding
 * one request frame into a ParsedRequest, and building the response frames.
 * A frame is text of at most three whitespace-separated fields; the builders
 * end every frame but the cache dump with a NUL byte.
 */
module Parser {
  import opened Wrappers
  import opened Utf8
  import Errors
  import Lru

  datatype CommandType =
    | Get | Delete | Set | Notify | ListPartitions | Lsd | Hit | Miss | Ack | Ok | Error

  /** One decoded frame; `originalRq` is the decoded text, kept for verbatim forwarding. */
  datatype ParsedRequest = ParsedRequest(
    cmd: CommandType,
    key: Option<string>,
    value: Option<string>,
    error: Option<Errors.Error>,
    originalRq: string)

  /**
   * How a step of the codec ends: with a value, with a returned error (Rust's
   * `Err`), or with a panic (an `unwrap` of a failed conversion).
   */
  datatype Outcome<+T> = Success(value: T) | Failure(error: Errors.Error) | Panic {
    predicate IsFailure() {
      !Success?
    }

    function PropagateFailure<U>(): Outcome<U>
      requires IsFailure()
    {
      if Failure? then Failure(error) else Panic
    }

    function Extract(): T
      requires Success?
    {
      value
    }
  }

  // ---------------------------------------------------------------- text helpers

  /** Rust's `char::is_whitespace`: the Unicode White_Space property. */
  predicate IsWhitespace(c: char) {
    var n := c as int;
    || 0x09 <= n <= 0x0D || n == 0x20 || n == 0x85 || n == 0xA0 || n == 0x1680
    || 0x2000 <= n <= 0x200A || n == 0x2028 || n == 0x2029 || n == 0x202F
    || n == 0x205F || n == 0x3000
  }

  predicate NoWhitespace(s: string) {
    forall i :: 0 <= i < |s| ==> !IsWhitespace(s[i])
  }

  /** The part of `s` before the first `stop`, all of `s` when there is none. */
  function UpTo<T(==)>(s: seq<T>, stop: T): (r: seq<T>)
    ensures |r| <= |s| && r == s[..|r|]
    ensures stop !in r
    ensures |r| < |s| ==> s[|r|] == stop
  {
    if s == [] || s[0] == stop then [] else [s[0]] + UpTo(s[1..], stop)
  }

  /** The three facts of UpTo's contract single out its result. */
  lemma UpToUnique<T>(s: seq<T>, stop: T, r: seq<T>)
    requires |r| <= |s| && r == s[..|r|] && stop !in r
    requires |r| < |s| ==> s[|r|] == stop
    ensures r == UpTo(s, stop)
  {
  }

  lemma UpToAppend<T>(a: seq<T>, b: seq<T>, stop: T)
    ensures UpTo(a + b, stop) == if stop in a then UpTo(a, stop) else a + UpTo(b, stop)
  {
    var s := a + b;
    if stop in a {
      var u := UpTo(a, stop);
      assert |u| < |a|;
      UpToUnique(s, stop, u);
    } else {
      var u := a + UpTo(b, stop);
      assert u == s[..|u|];
      UpToUnique(s, stop, u);
    }
  }

  /** Cutting the encoding at the first zero byte is encoding the text cut at its first NUL. */
  lemma TruncateEncoded(t: string)
    ensures UpTo(Encode(t), 0) == Encode(UpTo(t, '\0'))
  {
    var u := UpTo(t, '\0');
    var rest := t[|u|..];
    assert t == u + rest;
    EncodeAppend(u, rest);
    EncodeHasNul(u);
    var e := Encode(t);
    assert Encode(u) == e[..|Encode(u)|];
    if rest != [] {
      assert Encode(rest)[0] == 0;
      assert e[|Encode(u)|] == 0;
    }
    UpToUnique(e, 0, Encode(u));
  }

  /** Index of the first whitespace character of `s`, or `|s|`. */
  function WhitespaceIndex(s: string): (i: nat)
    ensures i <= |s| && NoWhitespace(s[..i])
    ensures i < |s| ==> IsWhitespace(s[i])
  {
    if s == [] || IsWhitespace(s[0]) then 0
    else
      var i := 1 + WhitespaceIndex(s[1..]);
      assert s[..i] == [s[0]] + s[1..][..i - 1];
      i
  }

  /** One step of `splitn`: the field before the first whitespace, and what follows that whitespace. */
  function SplitOnce(s: string): (r: (string, Option<string>))
    ensures NoWhitespace(r.0)
    ensures r.1.None? ==> r.0 == s
    ensures r.1.Some? ==>
      |r.0| < |s| && IsWhitespace(s[|r.0|]) && s == r.0 + [s[|r.0|]] + r.1.value
  {
    var i := WhitespaceIndex(s);
    if i == |s| then (s, None)
    else
      assert s == s[..i] + [s[i]] + s[i + 1..];
      (s[..i], Some(s[i + 1..]))
  }

  /** `s.splitn(3, char::is_whitespace)`: at most three fields, the last one the unsplit remainder. */
  function SplitN3(s: string): (parts: seq<string>)
    ensures 1 <= |parts| <= 3
    ensures NoWhitespace(parts[0])
    ensures |parts| >= 2 ==> NoWhitespace(parts[1])
    ensures |parts| == 1 ==> parts[0] == s
  {
    var (p0, rest) := SplitOnce(s);
    match rest
    case None => [p0]
    case Some(t) =>
      var (p1, rest2) := SplitOnce(t);
      match rest2
      case None => [p0, p1]
      case Some(u) => [p0, p1, u]
  }

  lemma SplitOnceOf(a: string, w: char, b: string)
    requires NoWhitespace(a) && IsWhitespace(w)
    ensures SplitOnce(a + [w] + b) == (a, Some(b))
  {
    var s := a + [w] + b;
    assert s[..|a|] == a && s[|a|] == w && s[|a| + 1..] == b;

  }

  lemma SplitOnceWhole(a: string)
    requires NoWhitespace(a)
    ensures SplitOnce(a) == (a, None)
  {
  }

  /** Two field separators and a remainder: three fields, whatever the remainder holds. */
  lemma SplitN3Three(a: string, w1: char, b: string, w2: char, c: string)
    requires NoWhitespace(a) && NoWhitespace(b) && IsWhitespace(w1) && IsWhitespace(w2)
    ensures SplitN3(a + [w1] + b + [w2] + c) == [a, b, c]
  {
    assert a + [w1] + b + [w2] + c == a + [w1] + (b + [w2] + c);
    SplitOnceOf(a, w1, b + [w2] + c);
    SplitOnceOf(b, w2, c);
  }

  lemma SplitN3Two(a: string, w: char, b: string)
    requires NoWhitespace(a) && NoWhitespace(b) && IsWhitespace(w)
    ensures SplitN3(a + [w] + b) == [a, b]
  {
    SplitOnceOf(a, w, b);
    SplitOnceWhole(b);
  }

  /** A last field that is empty, a lone newline or a lone NUL is not a field. */
  function DropTrailingPart(parts: seq<string>): (r: seq<string>)
    ensures |parts| - 1 <= |r| <= |parts| && r == parts[..|r|]
    ensures |r| < |parts| <==> |parts| > 0 && parts[|parts| - 1] in {"", "\n", "\0"}
  {
    if |parts| > 0 && parts[|parts| - 1] in {"", "\n", "\0"} then parts[..|parts| - 1] else parts
  }

  // ---------------------------------------------------------------- fields

  function TokenOf(cmd: CommandType): string {
    match cmd
    case Get => "GET"
    case Delete => "DEL"
    case Set => "SET"
    case Notify => "NTF"
    case ListPartitions => "LSP"
    case Lsd => "LSD"
    case Hit => "HIT"
    case Miss => "MSS"
    case Ack => "ACK"
    case Ok => "OK"
    case Error => "ERR"
  }

  /** The command a first field names: exact, case-sensitive match against the token table. */
  function CommandOf(token: string): (r: Option<CommandType>)
    ensures r.Some? ==> TokenOf(r.value) == token
  {
    if token == "GET" then Some(Get)
    else if token == "DEL" then Some(Delete)
    else if token == "SET" then Some(Set)
    else if token == "NTF" then Some(Notify)
    else if token == "LSP" then Some(ListPartitions)
    else if token == "LSD" then Some(Lsd)
    else if token == "HIT" then Some(Hit)
    else if token == "MSS" then Some(Miss)
    else if token == "ACK" then Some(Ack)
    else if token == "OK" then Some(Ok)
    else if token == "ERR" then Some(Error)
    else None
  }

  /** Every command's token is recognised as that command, and nothing else is recognised. */
  lemma CommandTokens(token: string)
    ensures forall c :: CommandOf(TokenOf(c)) == Some(c)
    ensures CommandOf(token).None? <==> forall c :: TokenOf(c) != token
  {
    forall c ensures CommandOf(TokenOf(c)) == Some(c) {
      match c
      case Get => case Delete => case Set => case Notify => case ListPartitions =>
      case Lsd => case Hit => case Miss => case Ack => case Ok => case Error =>
    }
  }

  /** The commands whose request must carry a key. */
  predicate NeedsKey(cmd: CommandType) {
    cmd == Get || cmd == Set || cmd == Delete || cmd == Lsd
  }

  /** `extract_cmd`: the command the first field names; NotEnoughArgs without fields, InvalidRequestCmd for an unknown one. */
  function ExtractCmd(parts: seq<string>): (r: Outcome<CommandType>)
    ensures r.Success? ==> |parts| > 0 && TokenOf(r.value) == parts[0]
    ensures |parts| == 0 ==> r == Failure(Errors.FromCode(Errors.NotEnoughArgs))
    ensures |parts| > 0 && (forall c :: TokenOf(c) != parts[0]) ==> r == Failure(Errors.FromCode(Errors.InvalidRequestCmd))
  {
    if |parts| == 0 then Failure(Errors.FromCode(Errors.NotEnoughArgs))
    else match CommandOf(parts[0])
      case None => Failure(Errors.FromCode(Errors.InvalidRequestCmd))
      case Some(c) => Success(c)
  }

  /**
   * `token.to_uppercase() == "GET"`. Only the letters g, e and t have G, E
   * and T as their upper case, so this is a case-insensitive comparison.
   */
  predicate UppercasesToGet(token: string) {
    |token| == 3 && token[0] in "gG" && token[1] in "eE" && token[2] in "tT"
  }

  /** `.replace("\\0", "\u{0000}")`: each backslash-zero pair, left to right, becomes one NUL. */
  function ReplaceEscapedNul(s: string): (r: string)
    ensures |r| <= |s|
    ensures (forall i :: 0 <= i < |s| - 1 ==> !(s[i] == '\\' && s[i + 1] == '0')) ==> r == s
  {
    if |s| >= 2 && s[0] == '\\' && s[1] == '0' then ['\0'] + ReplaceEscapedNul(s[2..])
    else if s == [] then []
    else [s[0]] + ReplaceEscapedNul(s[1..])
  }

  /** No backslash is directly followed by the digit zero. */
  predicate NoEscapedNul(a: string) {
    forall i :: 0 <= i < |a| - 1 ==> !(a[i] == '\\' && a[i + 1] == '0')
  }

  /** The first backslash-zero pair becomes one NUL; what precedes it is kept and what follows is replaced in turn. */
  lemma {:induction false} ReplaceAtPair(a: string, b: string)
    requires NoEscapedNul(a)
    ensures ReplaceEscapedNul(a + "\\0" + b) == a + "\0" + ReplaceEscapedNul(b)
  {
    if a == [] {
      assert a + "\\0" + b == "\\0" + b;
      ReplaceLeadingPair(b);
    } else {
      assert NoEscapedNul(a[1..]) by {
        forall i | 0 <= i < |a[1..]| - 1 ensures !(a[1..][i] == '\\' && a[1..][i + 1] == '0') {
          assert a[1..][i] == a[i + 1] && a[1..][i + 1] == a[i + 2];
        }
      }
      ReplaceAtPair(a[1..], b);
      ReplaceAtPairStep(a, b);
    }
  }

  lemma ReplaceAtPairStep(a: string, b: string)
    requires a != [] && (|a| > 1 ==> !(a[0] == '\\' && a[1] == '0'))
    requires ReplaceEscapedNul(a[1..] + "\\0" + b) == a[1..] + "\0" + ReplaceEscapedNul(b)
    ensures ReplaceEscapedNul(a + "\\0" + b) == a + "\0" + ReplaceEscapedNul(b)
  {
    var tail := a[1..] + "\\0" + b;
    assert a + "\\0" + b == [a[0]] + tail;
    ReplacePlainHead(a[0], tail);
    assert a == [a[0]] + a[1..];
  }

  lemma ReplaceLeadingPair(b: string)
    ensures ReplaceEscapedNul("\\0" + b) == "\0" + ReplaceEscapedNul(b)
  {
    assert ("\\0" + b)[2..] == b;
  }

  lemma ReplacePlainHead(x: char, t: string)
    requires t != [] && !(x == '\\' && t[0] == '0')
    ensures ReplaceEscapedNul([x] + t) == [x] + ReplaceEscapedNul(t)
  {
    assert ([x] + t)[1..] == t;
  }

  /** `extract_key`: the second field, or for GET with three fields the last two joined; NotEnoughArgs without a second field. */
  function ExtractKey(parts: seq<string>): (r: Outcome<Option<string>>)
    ensures r.Failure? <==> |parts| < 2
    ensures r.Failure? ==> r.error == Errors.FromCode(Errors.NotEnoughArgs)
    ensures r.Success? ==> r.value.Some?
    ensures r.Success? && !(UppercasesToGet(parts[0]) && |parts| >= 3) ==> r.value.value == parts[1]
    ensures r.Success? && UppercasesToGet(parts[0]) && |parts| >= 3 ==>
      r.value.value == ReplaceEscapedNul(parts[1] + " " + parts[2])
  {
    if |parts| < 2 then Failure(Errors.FromCode(Errors.NotEnoughArgs))
    else if UppercasesToGet(parts[0]) && |parts| >= 3 then
      Success(Some(ReplaceEscapedNul(parts[1] + " " + parts[2])))
    else Success(Some(parts[1]))
  }

  /** `extract_value`: the third field, or NotEnoughArgs. */
  function ExtractValue(parts: seq<string>): (r: Outcome<Option<string>>)
    ensures r.Success? <==> |parts| >= 3
    ensures r.Success? ==> r.value == Some(parts[2])
    ensures !r.Success? ==> r == Failure(Errors.FromCode(Errors.NotEnoughArgs))
  {
    if |parts| < 3 then Failure(Errors.FromCode(Errors.NotEnoughArgs))
    else Success(Some(parts[2]))
  }

  /** The error carried by an ERR frame; a code field that is not a u8 makes `unwrap` panic. */
  function ExtractError(parts: seq<string>): (r: Outcome<Option<Errors.Error>>)
    ensures r.Failure? <==> |parts| < 3
    ensures r.Failure? ==> r.error == Errors.FromCode(Errors.NotEnoughArgs)
    ensures r.Panic? <==> |parts| >= 3 && ParseU8(parts[1]).None?
    ensures r.Success? ==> r.value.Some? && r.value.value == Errors.ErrorFromU8(ParseU8(parts[1]).value)
  {
    if |parts| < 3 then Failure(Errors.FromCode(Errors.NotEnoughArgs))
    else match ParseU8(parts[1])
      case None => Panic
      case Some(v) => Success(Some(Errors.ErrorFromU8(v)))
  }

  // ---------------------------------------------------------------- numbers

  predicate IsDigit(c: char) {
    '0' <= c <= '9'
  }

  predicate AllDigits(s: string) {
    forall i :: 0 <= i < |s| ==> IsDigit(s[i])
  }

  function DigitsValue(d: string): nat
    requires AllDigits(d)
  {
    if d == [] then 0 else DigitsValue(d[..|d| - 1]) * 10 + (d[|d| - 1] as int - '0' as int)
  }

  /** `str::parse::<u8>`: an optional `+`, then one or more ASCII digits, worth at most 255. */
  function ParseU8(s: string): (r: Option<byte>)
    ensures r.Some? ==> |s| > 0 && IsDigit(s[|s| - 1])
    ensures s != [] && AllDigits(s) ==> (r.Some? <==> DigitsValue(s) <= 255)
    ensures r.Some? && AllDigits(s) ==> r.value as nat == DigitsValue(s)
    ensures var d := if |s| > 0 && s[0] == '+' then s[1..] else s;
      r.Some? <==> d != [] && AllDigits(d) && DigitsValue(d) <= 255
    ensures var d := if |s| > 0 && s[0] == '+' then s[1..] else s;
      r.Some? ==> r.value as nat == DigitsValue(d)
  {
    var digits := if |s| > 0 && s[0] == '+' then s[1..] else s;
    if digits == [] || !AllDigits(digits) then None
    else if DigitsValue(digits) <= 255 then Some(DigitsValue(digits) as byte)
    else None
  }

  /** `format!("{}", n)`: the decimal digits of n, read back by DigitsValue. */
  function Decimal(n: nat): (s: string)
    ensures |s| > 0 && AllDigits(s) && DigitsValue(s) == n
    ensures n == 0 ==> s == "0"
    ensures n > 0 ==> s[0] != '0'
  {
    var last := ['0' + ((n % 10) as char)];
    if n < 10 then last
    else
      var s := Decimal(n / 10) + last;
      assert s[..|s| - 1] == Decimal(n / 10);
      s
  }

  /** Every u8 survives formatting and parsing. */
  lemma ParseDecimal(n: nat)
    requires n <= 255
    ensures ParseU8(Decimal(n)) == Some(n as byte)
  {
    var s := Decimal(n);
    assert IsDigit(s[0]);
  }

  // ---------------------------------------------------------------- decoding

  /** `parse_request`. */
  function ParseRequest(message: seq<byte>): (r: Outcome<ParsedRequest>)
    ensures r.Success? ==> (r.value.key.Some? <==> NeedsKey(r.value.cmd))
    ensures r.Success? ==> (r.value.value.Some? <==> r.value.cmd == Set)
    ensures r.Success? ==> (r.value.error.Some? <==> r.value.cmd == Error)
    ensures r.Failure? ==> r.error.code in {Errors.InvalidSequence, Errors.NotEnoughArgs, Errors.InvalidRequestCmd}
  {
    match Decode(UpTo(message, 0))
    case None => Failure(Errors.FromCode(Errors.InvalidSequence))
    case Some(buf) => ParseText(buf)
  }

  /** `parse_request` from the UTF-8 check on: split into fields, then read them. */
  function ParseText(buf: string): (r: Outcome<ParsedRequest>)
    ensures r.Success? ==> r.value.originalRq == buf
    ensures r.Failure? ==> r.error.code in {Errors.NotEnoughArgs, Errors.InvalidRequestCmd}
  {
    FromFields(DropTrailingPart(SplitN3(buf)), buf)
  }

  /** The command, then the key, value and error the command calls for, each failing when its field is missing. */
  function FromFields(parts: seq<string>, buf: string): (r: Outcome<ParsedRequest>)
    ensures r.Success? ==> r.value.originalRq == buf
    ensures r.Success? ==> (r.value.key.Some? <==> NeedsKey(r.value.cmd))
    ensures r.Success? ==> (r.value.value.Some? <==> r.value.cmd == Set)
    ensures r.Success? ==> (r.value.error.Some? <==> r.value.cmd == Error)
    ensures r.Failure? ==>
      r.error == Errors.FromCode(Errors.NotEnoughArgs) || r.error == Errors.FromCode(Errors.InvalidRequestCmd)
  {
    var cmd :- ExtractCmd(parts);
    var key :- if NeedsKey(cmd) then ExtractKey(parts) else Success(None);
    var value :- if cmd == Set then ExtractValue(parts) else Success(None);
    var error :- if cmd == Error then ExtractError(parts) else Success(None);
    Success(ParsedRequest(cmd, key, value, error, buf))
  }

  lemma ParseTextFields(buf: string, parts: seq<string>)
    requires DropTrailingPart(SplitN3(buf)) == parts
    ensures ParseText(buf) == FromFields(parts, buf)
  {
  }

  // ---------------------------------------------------------------- building

  /** A frame: the encoded text and a NUL terminator. */
  function Frame(text: string): (r: seq<byte>)
    ensures r == Encode(text) + [0]
  {
    EncodeAppend(text, "\0");
    Encode(text + "\0")
  }

  function BuildHitResponse(key: string, value: string): (r: seq<byte>)
    ensures |r| > 0 && r[|r| - 1] == 0
  {
    Frame("HIT " + key + " " + value)
  }

  function BuildLspResponse(partitionsStr: string): (r: seq<byte>)
    ensures |r| > 0 && r[|r| - 1] == 0
  {
    Frame("LSP " + partitionsStr)
  }

  function BuildMissResponse(key: string): (r: seq<byte>)
    ensures |r| > 0 && r[|r| - 1] == 0
  {
    Frame("MSS " + key)
  }

  function BuildOkResponse(): (r: seq<byte>)
    ensures |r| > 0 && r[|r| - 1] == 0
  {
    Frame("OK")
  }

  function ErrorText(err: Errors.Error): string {
    "ERR " + Decimal(Errors.ToU8(err.code) as nat) + " " + err.msg
  }

  function BuildErrorResponse(err: Errors.Error): (r: seq<byte>)
    ensures |r| > 0 && r[|r| - 1] == 0
  {
    Frame(ErrorText(err))
  }

  function BuildNotifyRequest(): (r: seq<byte>)
    ensures |r| > 0 && r[|r| - 1] == 0
  {
    Frame("NTF")
  }

  function BuildAckResponse(): (r: seq<byte>)
    ensures |r| > 0 && r[|r| - 1] == 0
  {
    Frame("ACK")
  }

  /** One line of the cache dump. */
  function LsdLine(e: Lru.Entry): string {
    "Key: " + e.key + ", Value: " + e.value + " \n"
  }

  /** The cache dump: one line per entry, in iteration order, and no terminator. */
  function LsdListing(entries: seq<Lru.Entry>): (r: string)
    ensures r == [] <==> entries == []
    ensures entries != [] ==> r[|r| - 1] == '\n'
  {
    if entries == [] then [] else LsdListing(entries[..|entries| - 1]) + LsdLine(entries[|entries| - 1])
  }

  /** `build_lsd_response`: walks the cache most recent first, appending one line per entry. */
  method BuildLsdResponse(cache: Lru.LruCache) returns (r: seq<byte>)
    ensures r == Encode(LsdListing(cache.entries))
  {
    var s: string := "";
    var i := 0;
    while i < |cache.entries|
      invariant 0 <= i <= |cache.entries|
      invariant s == LsdListing(cache.entries[..i])
    {
      assert cache.entries[..i + 1][..i] == cache.entries[..i];
      s := s + LsdLine(cache.entries[i]);
      i := i + 1;
    }
    assert cache.entries[..i] == cache.entries;
    r := Encode(s);
  }

  // ---------------------------------------------------------------- properties

  /** Only the bytes before the first NUL reach the decoder. */
  lemma OnlyBytesBeforeNulMatter(a: seq<byte>, b: seq<byte>)
    requires 0 !in a
    ensures ParseRequest(a + [0] + b) == ParseRequest(a)
  {
    assert a + [0] + b == a + ([0] + b);
    UpToAppend(a, [0] + b, 0);
    UpToUnique(a, 0, a);
  }

  /** Text without a NUL, sent as it is with no terminator, decodes as that text. */
  lemma ParseUnterminated(text: string)
    requires '\0' !in text
    ensures ParseRequest(Encode(text)) == ParseText(text)
  {
    EncodeHasNul(text);
    UpToUnique(Encode(text), 0, Encode(text));
    DecodeEncode(text);
  }

  /** Two buffers that agree before their first NUL decode alike. */
  lemma SamePrefixSameRequest(m1: seq<byte>, m2: seq<byte>)
    requires UpTo(m1, 0) == UpTo(m2, 0)
    ensures ParseRequest(m1) == ParseRequest(m2)
  {
  }

  /** `originalRq` is the text of exactly the bytes before the first NUL, so forwarding it resends them. */
  lemma OriginalRequestIsPrefix(message: seq<byte>)
    requires ParseRequest(message).Success?
    ensures Encode(ParseRequest(message).value.originalRq) == UpTo(message, 0)
  {
    EncodeDecode(UpTo(message, 0));
  }

  /** A request fails with InvalidSequence exactly when its bytes before the first NUL are not UTF-8. */
  lemma InvalidSequenceExactly(message: seq<byte>)
    ensures ParseRequest(message) == Failure(Errors.FromCode(Errors.InvalidSequence))
        <==> Decode(UpTo(message, 0)).None?
  {
  }

  /** Empty input has no command field. */
  lemma EmptyRequest()
    ensures ParseRequest([]) == Failure(Errors.FromCode(Errors.NotEnoughArgs))
  {
    SplitOnceWhole("");
  }

  /** A first field outside the token table (compared exactly, case included) is InvalidRequestCmd. */
  lemma UnknownCommand(buf: string)
    requires buf != "" && buf != "\0"
    requires CommandOf(SplitOnce(buf).0).None?
    ensures ParseText(buf) == Failure(Errors.FromCode(Errors.InvalidRequestCmd))
  {
    var parts := SplitN3(buf);
    assert parts[0] == SplitOnce(buf).0;
    if |parts| == 1 {
      assert buf != "\n" by {
        if buf == "\n" {
          assert IsWhitespace(parts[0][0]);
        }
      }
    }
    assert DropTrailingPart(parts)[0] == parts[0];
  }

  lemma TokenHasNoWhitespace(c: CommandType)
    ensures NoWhitespace(TokenOf(c)) && TokenOf(c) !in {"", "\n", "\0"}
  {
  }

  /** A known command alone: the four keyed commands and ERR lack arguments, the others carry nothing. */
  lemma CommandAlone(c: CommandType)
    ensures ParseText(TokenOf(c)) ==
      if NeedsKey(c) || c == Error then Failure(Errors.FromCode(Errors.NotEnoughArgs))
      else Success(ParsedRequest(c, None, None, None, TokenOf(c)))
  {
    TokenHasNoWhitespace(c);
    SplitOnceWhole(TokenOf(c));
    CommandTokens(TokenOf(c));
  }

  /** Commands that take no key ignore what follows their token. */
  lemma CommandWithoutKey(c: CommandType, w: char, rest: string)
    requires !NeedsKey(c) && c != Error && IsWhitespace(w)
    ensures ParseText(TokenOf(c) + [w] + rest)
         == Success(ParsedRequest(c, None, None, None, TokenOf(c) + [w] + rest))
  {
    TokenHasNoWhitespace(c);
    SplitOnceOf(TokenOf(c), w, rest);
    CommandTokens(TokenOf(c));
    var parts := SplitN3(TokenOf(c) + [w] + rest);
    assert parts[0] == TokenOf(c) && |parts| >= 2;
    assert DropTrailingPart(parts)[0] == TokenOf(c);
  }

  /** GET, DEL and LSD with one key field take that field as it is; SET with only a key lacks its value. */
  lemma OneKeyField(c: CommandType, w: char, k: string)
    requires NeedsKey(c) && IsWhitespace(w) && NoWhitespace(k) && k !in {"", "\0"}
    ensures ParseText(TokenOf(c) + [w] + k) ==
      if c == Set then Failure(Errors.FromCode(Errors.NotEnoughArgs))
      else Success(ParsedRequest(c, Some(k), None, None, TokenOf(c) + [w] + k))
  {
    TokenHasNoWhitespace(c);
    SplitN3Two(TokenOf(c), w, k);
    CommandTokens(TokenOf(c));
    assert k != "\n" by {
      if k == "\n" {
        assert IsWhitespace(k[0]);
      }
    }
  }

  /** Three fields after a known token: the text reads as those fields. */
  lemma ThreeFieldsOf(c: CommandType, w1: char, a: string, w2: char, b: string)
    requires IsWhitespace(w1) && IsWhitespace(w2) && NoWhitespace(a) && b !in {"", "\n", "\0"}
    ensures var text := TokenOf(c) + [w1] + a + [w2] + b;
      ParseText(text) == FromFields([TokenOf(c), a, b], text)
  {
    var text := TokenOf(c) + [w1] + a + [w2] + b;
    TokenHasNoWhitespace(c);
    SplitN3Three(TokenOf(c), w1, a, w2, b);
    ParseTextFields(text, [TokenOf(c), a, b]);
  }

  /** SET: the key is the second field and the value the whole remainder after the second separator. */
  lemma SetFields(w1: char, k: string, w2: char, v: string)
    requires IsWhitespace(w1) && IsWhitespace(w2) && NoWhitespace(k) && v !in {"", "\n", "\0"}
    ensures ParseText("SET" + [w1] + k + [w2] + v)
         == Success(ParsedRequest(Set, Some(k), Some(v), None, "SET" + [w1] + k + [w2] + v))
  {
    ThreeFieldsOf(Set, w1, k, w2, v);
    KeyedFields(Set, k, v, "SET" + [w1] + k + [w2] + v);
  }

  /** The fields of a keyed command other than GET: the second is the key, and SET's third its value. */
  lemma KeyedFields(c: CommandType, a: string, b: string, buf: string)
    requires c == Set || c == Delete || c == Lsd
    ensures FromFields([TokenOf(c), a, b], buf)
         == Success(ParsedRequest(c, Some(a), if c == Set then Some(b) else None, None, buf))
  {
    CommandTokens(TokenOf(c));
    assert !UppercasesToGet(TokenOf(c));
  }

  /** GET with three fields folds the last two into one key joined by a space, backslash-zero read as NUL. */
  lemma GetFoldsKey(w1: char, a: string, w2: char, b: string)
    requires IsWhitespace(w1) && IsWhitespace(w2) && NoWhitespace(a) && b !in {"", "\n", "\0"}
    ensures ParseText("GET" + [w1] + a + [w2] + b)
         == Success(ParsedRequest(Get, Some(ReplaceEscapedNul(a + " " + b)), None, None, "GET" + [w1] + a + [w2] + b))
  {
    ThreeFieldsOf(Get, w1, a, w2, b);
    FoldedFields(a, b, "GET" + [w1] + a + [w2] + b);
  }

  lemma FoldedFields(a: string, b: string, buf: string)
    ensures FromFields(["GET", a, b], buf)
         == Success(ParsedRequest(Get, Some(ReplaceEscapedNul(a + " " + b)), None, None, buf))
  {
    assert UppercasesToGet("GET");
  }

  /** DEL and LSD with three fields keep the second as the key: only GET folds. */
  lemma NoFoldingOutsideGet(c: CommandType, w1: char, a: string, w2: char, b: string)
    requires c == Delete || c == Lsd
    requires IsWhitespace(w1) && IsWhitespace(w2) && NoWhitespace(a) && b !in {"", "\n", "\0"}
    ensures ParseText(TokenOf(c) + [w1] + a + [w2] + b)
         == Success(ParsedRequest(c, Some(a), None, None, TokenOf(c) + [w1] + a + [w2] + b))
  {
    ThreeFieldsOf(c, w1, a, w2, b);
    KeyedFields(c, a, b, TokenOf(c) + [w1] + a + [w2] + b);
  }

  /** Decoding a built frame decodes its text up to the first NUL. */
  lemma ParseFrame(text: string)
    ensures ParseRequest(Frame(text)) == ParseText(UpTo(text, '\0'))
  {
    var e := Encode(text);
    UpToAppend(e, [0], 0);
    if 0 !in e {
      UpToUnique(e, 0, e);
    }
    TruncateEncoded(text);
    DecodeEncode(UpTo(text, '\0'));
  }

  /** A frame holding only a token that takes no argument decodes to that command with nothing attached. */
  lemma BareFrameRoundTrip(c: CommandType)
    requires !NeedsKey(c) && c != Error
    ensures ParseRequest(Frame(TokenOf(c))) == Success(ParsedRequest(c, None, None, None, TokenOf(c)))
  {
    ParseFrame(TokenOf(c));
    TokenHasNoWhitespace(c);
    assert '\0' !in TokenOf(c);
    UpToUnique(TokenOf(c), '\0', TokenOf(c));
    CommandAlone(c);
  }

  /** OK, ACK and NTF frames decode to their commands. */
  lemma OkFrameRoundTrip()
    ensures ParseRequest(BuildOkResponse()) == Success(ParsedRequest(Ok, None, None, None, "OK"))
  {
    assert TokenOf(Ok) == "OK";
    assert BuildOkResponse() == Frame(TokenOf(Ok));
    BareFrameRoundTrip(Ok);
  }

  lemma AckFrameRoundTrip()
    ensures ParseRequest(BuildAckResponse()) == Success(ParsedRequest(Ack, None, None, None, "ACK"))
  {
    assert TokenOf(Ack) == "ACK";
    assert BuildAckResponse() == Frame(TokenOf(Ack));
    BareFrameRoundTrip(Ack);
  }

  lemma NotifyFrameRoundTrip()
    ensures ParseRequest(BuildNotifyRequest()) == Success(ParsedRequest(Notify, None, None, None, "NTF"))
  {
    assert TokenOf(Notify) == "NTF";
    assert BuildNotifyRequest() == Frame(TokenOf(Notify));
    BareFrameRoundTrip(Notify);
  }

  /** An ERR frame built from a code decodes to an Error command carrying that code and its message. */
  lemma ErrorFrameRoundTrip(c: Errors.ErrorCode)
    ensures ParseRequest(BuildErrorResponse(Errors.FromCode(c)))
         == Success(ParsedRequest(Error, None, None, Some(Errors.FromCode(c)), ErrorText(Errors.FromCode(c))))
  {
    var err := Errors.FromCode(c);
    var text := ErrorText(err);
    ErrorTextFields(c);
    UpToUnique(text, '\0', text);
    ParseFrame(text);
    ParseTextFields(text, ["ERR", Decimal(Errors.ToU8(c) as nat), err.msg]);
    ErrorFields(c, text);
  }

  /** The text of an ERR frame has no NUL and splits into the token, the code and the whole message. */
  lemma ErrorTextFields(c: Errors.ErrorCode)
    ensures '\0' !in ErrorText(Errors.FromCode(c))
    ensures DropTrailingPart(SplitN3(ErrorText(Errors.FromCode(c))))
         == ["ERR", Decimal(Errors.ToU8(c) as nat), Errors.FromCode(c).msg]
  {
    ErrorTextHasNoNul(c);
    ErrorTextSplits(c);
  }

  lemma ErrorTextHasNoNul(c: Errors.ErrorCode)
    ensures '\0' !in ErrorText(Errors.FromCode(c))
  {
    var err := Errors.FromCode(c);
    ErrorTextShape(err);
    Errors.MessageHasNoNul(c);
    DigitsArePlain(Decimal(Errors.ToU8(c) as nat));
    assert '\0' !in "ERR";
  }

  lemma ErrorTextSplits(c: Errors.ErrorCode)
    ensures DropTrailingPart(SplitN3(ErrorText(Errors.FromCode(c))))
         == ["ERR", Decimal(Errors.ToU8(c) as nat), Errors.FromCode(c).msg]
  {
    var err := Errors.FromCode(c);
    var d := Decimal(Errors.ToU8(c) as nat);
    ErrorTextShape(err);
    DigitsArePlain(d);
    assert NoWhitespace("ERR");
    SplitN3Three("ERR", ' ', d, ' ', err.msg);
    assert |err.msg| > 1;
  }

  lemma ErrorTextShape(err: Errors.Error)
    ensures ErrorText(err) == "ERR" + [' '] + Decimal(Errors.ToU8(err.code) as nat) + [' '] + err.msg
  {
    assert "ERR " == "ERR" + [' '];
  }

  /** Digits are neither whitespace nor NUL. */
  lemma DigitsArePlain(d: string)
    requires AllDigits(d)
    ensures NoWhitespace(d) && '\0' !in d
  {
    assert forall i :: 0 <= i < |d| ==> IsDigit(d[i]);
  }

  lemma ErrorFields(c: Errors.ErrorCode, buf: string)
    ensures FromFields(["ERR", Decimal(Errors.ToU8(c) as nat), Errors.FromCode(c).msg], buf)
         == Success(ParsedRequest(Error, None, None, Some(Errors.FromCode(c)), buf))
  {
    ParseDecimal(Errors.ToU8(c) as nat);
  }

  /** A frame of a token that takes no argument, a space and anything decodes to that command alone. */
  lemma ArgumentFrameRoundTrip(c: CommandType, rest: string)
    requires !NeedsKey(c) && c != Error
    ensures ParseRequest(Frame(TokenOf(c) + " " + rest))
         == Success(ParsedRequest(c, None, None, None, TokenOf(c) + " " + UpTo(rest, '\0')))
  {
    ParseFrame(TokenOf(c) + " " + rest);
    ArgumentPrefix(c, rest);
    CommandWithoutKey(c, ' ', UpTo(rest, '\0'));
  }

  lemma ArgumentPrefix(c: CommandType, rest: string)
    ensures UpTo(TokenOf(c) + " " + rest, '\0') == TokenOf(c) + [' '] + UpTo(rest, '\0')
  {
    var head := TokenOf(c) + " ";
    TokenHasNoWhitespace(c);
    assert '\0' !in head;
    UpToAppend(head, rest, '\0');
  }

  /** A HIT frame decodes to Hit; its key and value are not read back. */
  lemma HitFrameRoundTrip(key: string, value: string)
    ensures ParseRequest(BuildHitResponse(key, value))
         == Success(ParsedRequest(Hit, None, None, None, "HIT " + UpTo(key + " " + value, '\0')))
  {
    HitFrameText(key, value);
    ArgumentFrameOf(Hit, "HIT ", key + " " + value);
  }

  lemma HitFrameText(key: string, value: string)
    ensures BuildHitResponse(key, value) == Frame("HIT " + (key + " " + value))
  {
    Regroup("HIT ", key, " ", value);
  }

  lemma Regroup(a: string, b: string, c: string, d: string)
    ensures a + b + c + d == a + (b + c + d)
  {
  }

  lemma ArgumentFrameOf(c: CommandType, head: string, rest: string)
    requires !NeedsKey(c) && c != Error && head == TokenOf(c) + " "
    ensures ParseRequest(Frame(head + rest)) == Success(ParsedRequest(c, None, None, None, head + UpTo(rest, '\0')))
  {
    ArgumentFrameRoundTrip(c, rest);
  }

  /** An MSS frame decodes to Miss; its key is not read back. */
  lemma MissFrameRoundTrip(key: string)
    ensures ParseRequest(BuildMissResponse(key))
         == Success(ParsedRequest(Miss, None, None, None, "MSS " + UpTo(key, '\0')))
  {
    assert TokenOf(Miss) + " " == "MSS ";
    ArgumentFrameRoundTrip(Miss, key);
  }

  /** An LSP reply decodes to ListPartitions; the listing is not read back. */
  lemma LspFrameRoundTrip(listing: string)
    ensures ParseRequest(BuildLspResponse(listing))
         == Success(ParsedRequest(ListPartitions, None, None, None, "LSP " + UpTo(listing, '\0')))
  {
    assert TokenOf(ListPartitions) + " " == "LSP ";
    ArgumentFrameRoundTrip(ListPartitions, listing);
  }

  /** The cache dump is the one frame without a NUL terminator: empty, or ending in a newline. */
  lemma LsdHasNoTerminator(entries: seq<Lru.Entry>)
    ensures entries == [] ==> Encode(LsdListing(entries)) == []
    ensures entries != [] ==>
      var r := Encode(LsdListing(entries)); |r| > 0 && r[|r| - 1] == '\n' as int as byte
  {
    if entries != [] {
      var s := LsdListing(entries);
      assert s == s[..|s| - 1] + ['\n'];
      EncodeAppend(s[..|s| - 1], ['\n']);
    }
  }

  /** One line per entry: with no newline inside keys and values, the dump holds exactly |entries| newlines. */
  lemma {:induction false} LsdLineCount(entries: seq<Lru.Entry>)
    requires forall e :: e in entries ==> '\n' !in e.key && '\n' !in e.value
    ensures multiset(LsdListing(entries))['\n'] == |entries|
  {
    if entries != [] {
      var init, last := entries[..|entries| - 1], entries[|entries| - 1];
      assert forall e :: e in init ==> e in entries;
      LsdLineCount(init);
      LsdLineHasOneNewline(last);
      assert LsdListing(entries) == LsdListing(init) + LsdLine(last);
    }
  }

  lemma LsdLineHasOneNewline(e: Lru.Entry)
    requires '\n' !in e.key && '\n' !in e.value
    ensures multiset(LsdLine(e))['\n'] == 1
  {
    var fields := "Key: " + e.key + ", Value: " + e.value;
    LsdFieldsHaveNoNewline(e);
    OneNewlineAtEnd(fields);
  }

  lemma LsdFieldsHaveNoNewline(e: Lru.Entry)
    requires '\n' !in e.key && '\n' !in e.value
    ensures '\n' !in "Key: " + e.key + ", Value: " + e.value
  {
    assert '\n' !in "Key: " && '\n' !in ", Value: ";
  }

  lemma OneNewlineAtEnd(s: string)
    requires '\n' !in s
    ensures multiset(s + " \n")['\n'] == 1
  {
    assert multiset(s)['\n'] == 0;
    assert " \n" == [' '] + ['\n'];
  }
}
