/**
 * The command-line value parsers of `crates/cli/util/src/parsers.rs`:
 * durations given in seconds or milliseconds, a block given by hash or by
 * number, and a socket address given as a port, a `:port` or
 * `localhost:port` shorthand, or a host to resolve.
 *
 * The hash parser and the host resolver live outside this model; both are
 * parameters (`parseHash`, `resolve`), so every property below holds
 * whatever they do, unless a lemma fixes one of them.
 */
module Parsers {
  import opened Wrappers
  import opened RustStr
  import opened RustInt
  import opened B256Hex

  // ------------------------------------------------------------ durations

  /** A `std::time::Duration`, kept as a whole number of milliseconds. */
  datatype Duration = Duration(millis: nat)

  /** `Duration::as_secs`: the whole seconds. */
  function Secs(d: Duration): nat {
    d.millis / 1000
  }

  /** `Duration::subsec_millis`: the milliseconds past the whole seconds. */
  function SubsecMillis(d: Duration): nat {
    d.millis % 1000
  }

  /** `Duration::from_secs`: that many whole seconds and nothing more. */
  function FromSecs(secs: uint64): (d: Duration)
    ensures Secs(d) == secs as nat && SubsecMillis(d) == 0
  {
    Duration(secs as nat * 1000)
  }

  /** `Duration::from_millis`: `millis / 1000` seconds and `millis % 1000` milliseconds. */
  function FromMillis(millis: uint64): (d: Duration)
    ensures Secs(d) == millis as nat / 1000 && SubsecMillis(d) == millis as nat % 1000
  {
    Duration(millis as nat)
  }

  /**
   * The outcome `r` is what reading `digits` as a `u64` count of units of
   * `unitMillis` milliseconds gives: that duration when `digits` is a `u64`
   * literal, and otherwise the integer-parse error for `digits`.
   */
  predicate ReadsAs(r: Result<Duration, IntErrorKind>, digits: string, unitMillis: nat) {
    && (r.Ok? <==> Fits(digits, U64_MAX))
    && (r.Ok? ==> r.value.millis == LiteralValue(digits) * unitMillis)
    && (r.Err? ==> r.error == RejectionKind(digits, U64_MAX))
  }

  /** `parse_duration_from_secs`: the whole argument is a number of seconds. */
  function ParseDurationFromSecs(arg: string): (r: Result<Duration, IntErrorKind>)
    ensures ReadsAs(r, arg, 1000)
  {
    match ParseU64(arg)
    case Ok(secs) => Ok(FromSecs(secs))
    case Err(e) => Err(e)
  }

  /**
   * `parse_duration_from_secs_or_ms`: an `ms` suffix means milliseconds and
   * is tested first; otherwise an `s` suffix, or none, means seconds. Every
   * trailing copy of the suffix found is removed before the number is read.
   */
  function ParseDurationFromSecsOrMs(arg: string): (r: Result<Duration, IntErrorKind>)
    ensures EndsWith(arg, "ms") ==> ReadsAs(r, TrimEndMatches(arg, "ms"), 1)
    ensures !EndsWith(arg, "ms") && EndsWith(arg, "s") ==> ReadsAs(r, TrimEndMatches(arg, "s"), 1000)
    ensures !EndsWith(arg, "s") ==> ReadsAs(r, arg, 1000)
  {
    if EndsWith(arg, "ms") then
      match ParseU64(TrimEndMatches(arg, "ms"))
      case Ok(n) => Ok(FromMillis(n))
      case Err(e) => Err(e)
    else if EndsWith(arg, "s") then
      match ParseU64(TrimEndMatches(arg, "s"))
      case Ok(n) => Ok(FromSecs(n))
      case Err(e) => Err(e)
    else
      match ParseU64(arg)
      case Ok(n) => Ok(FromSecs(n))
      case Err(e) => Err(e)
  }

  /** The decimal form of `n` with no suffix is `n` seconds, for both duration parsers. */
  lemma PlainNumberIsSeconds(n: uint64)
    ensures ParseDurationFromSecs(ToDecimal(n as nat)) == Ok(FromSecs(n))
    ensures ParseDurationFromSecsOrMs(ToDecimal(n as nat)) == Ok(FromSecs(n))
  {
    var d := ToDecimal(n as nat);
    FormatThenParse(n as nat, U64_MAX);
    assert !IsDigit('s');
    assert !EndsWith(d, "s");
  }

  /** The decimal form of a `u64` parses back to it. */
  lemma ParseU64OfDecimal(n: uint64)
    ensures ParseU64(ToDecimal(n as nat)) == Ok(n)
  {
    FormatThenParse(n as nat, U64_MAX);
  }

  /** `n` followed by any positive number of `ms` is `n` milliseconds, not `n` seconds. */
  lemma {:induction false} MillisSuffixIsMillis(n: uint64, k: nat)
    requires k >= 1
    ensures ParseDurationFromSecsOrMs(ToDecimal(n as nat) + Repeat("ms", k)) == Ok(FromMillis(n))
  {
    var d := ToDecimal(n as nat);
    var arg := d + Repeat("ms", k);
    assert !EndsWith(d, "ms");
    TrimEndMatchesOfRepeat(d, "ms", k);
    assert arg == (d + Repeat("ms", k - 1)) + "ms";
    AppendedSuffix(d + Repeat("ms", k - 1), "ms");
    FormatThenParse(n as nat, U64_MAX);
  }

  /** `n` followed by any positive number of `s` is `n` seconds. */
  lemma {:induction false} SecondsSuffixIsSeconds(n: uint64, k: nat)
    requires k >= 1
    ensures ParseDurationFromSecsOrMs(ToDecimal(n as nat) + Repeat("s", k)) == Ok(FromSecs(n))
  {
    var d := ToDecimal(n as nat);
    var arg := d + Repeat("s", k);
    RepeatChar('s', k);
    assert !EndsWith(arg, "ms") by {
      assert arg[|arg| - 2] == if k == 1 then d[|d| - 1] else 's';
    }
    assert EndsWith(arg, "s");
    assert !EndsWith(d, "s");
    TrimEndMatchesOfRepeat(d, "s", k);
    ParseU64OfDecimal(n);
  }

  /**
   * A string ending in `ns` is always rejected: it takes the seconds branch,
   * and what remains after the `s` is trimmed ends in `n`.
   */
  lemma NanosSuffixIsRejected(arg: string)
    requires EndsWith(arg, "ns")
    ensures ParseDurationFromSecsOrMs(arg).Err?
  {
    assert arg[|arg| - 2] == 'n' && arg[|arg| - 1] == 's';
    assert !EndsWith(arg, "ms");
    var t := arg[..|arg| - 1];
    assert arg == t + "s";
    AppendedSuffix(t, "s");
    assert TrimEndMatches(arg, "s") == t;
    assert Magnitude(t)[|Magnitude(t)| - 1] == 'n';
  }

  /** The documented `5ms` is five milliseconds. */
  lemma MillisExample()
    ensures ParseDurationFromSecsOrMs("5ms") == Ok(FromMillis(5))
  {
    MillisSuffixIsMillis(5, 1);
    assert ToDecimal(5) + Repeat("ms", 1) == "5ms" by {
      assert ToDecimal(5) == "5";
      assert Repeat("ms", 0) == [];
      assert Repeat("ms", 1) == "ms";
    }
  }

  /** One more `ms` after an `ms` suffix changes nothing. */
  lemma ExtraMillisSuffix(arg: string)
    requires EndsWith(arg, "ms")
    ensures ParseDurationFromSecsOrMs(arg + "ms") == ParseDurationFromSecsOrMs(arg)
  {
    AppendedSuffix(arg, "ms");
    TrimEndMatchesStep(arg, "ms");
  }

  /** Repeated suffixes: `5msms` is five milliseconds. */
  lemma RepeatedMillisExample()
    ensures ParseDurationFromSecsOrMs("5msms") == Ok(FromMillis(5))
  {
    MillisExample();
    assert EndsWith("5ms", "ms");
    ExtraMillisSuffix("5ms");
    assert "5ms" + "ms" == "5msms";
  }

  /** The documented `5s` is five seconds. */
  lemma SecondsExample()
    ensures ParseDurationFromSecsOrMs("5s") == Ok(FromSecs(5))
  {
    SecondsSuffixIsSeconds(5, 1);
    assert ToDecimal(5) + Repeat("s", 1) == "5s" by {
      assert ToDecimal(5) == "5";
      assert Repeat("s", 0) == [];
      assert Repeat("s", 1) == "s";
    }
  }

  /** The documented `5` is five seconds. */
  lemma PlainExample()
    ensures ParseDurationFromSecsOrMs("5") == Ok(FromSecs(5))
  {
    PlainNumberIsSeconds(5);
    assert ToDecimal(5) == "5";
  }

  /** `5ns` takes the seconds branch, and trimming its `s` leaves `5n`. */
  lemma FiveNanosTrimmed()
    ensures !EndsWith("5ns", "ms") && EndsWith("5ns", "s")
    ensures TrimEndMatches("5ns", "s") == "5n"
  {
    var t := "5n";
    assert "5ns" == t + "s";
    AppendedSuffix(t, "s");
    assert !EndsWith(t, "s");
    assert TrimEndMatches(t, "s") == t;
    assert "5ns"[1] == 'n';
  }

  /** `5n` is not a `u64` literal: its second character is an invalid digit. */
  lemma FiveNRejected()
    ensures !Fits("5n", U64_MAX) && RejectionKind("5n", U64_MAX) == InvalidDigit
  {
    var t := "5n";
    assert Magnitude(t) == t;
    assert LeadingDigits(t) == 1 by {
      assert t[1..] == "n";
      assert LeadingDigits("n") == 0;
    }
    assert t[..1] == "5";
    assert Value("5") == 5 by {
      assert "5"[..0] == [];
    }
  }

  /** The documented rejection: `5ns` is not a duration. */
  lemma NanosExample()
    ensures ParseDurationFromSecsOrMs("5ns") == Err(InvalidDigit)
  {
    FiveNanosTrimmed();
    FiveNRejected();
  }


  // ------------------------------------------------- block hash or number

  /** `BlockHashOrNumber`: a block named by its hash or by its number. */
  datatype BlockHashOrNumber = Hash(hash: B256) | Number(number: uint64)

  /**
   * `hash_or_num_value_parser`: a hash when `parseHash` accepts the input,
   * otherwise the input read as a `u64` block number, otherwise that
   * integer-parse error.
   */
  function HashOrNumValueParser(parseHash: string -> Option<B256>, value: string)
    : (r: Result<BlockHashOrNumber, IntErrorKind>)
    ensures parseHash(value).Some? ==> r == Ok(Hash(parseHash(value).value))
    ensures parseHash(value).None? ==> (r.Ok? <==> Fits(value, U64_MAX))
    ensures parseHash(value).None? && r.Ok? ==> r.value.Number? && r.value.number as nat == LiteralValue(value)
    ensures r.Err? ==> parseHash(value).None? && r.error == RejectionKind(value, U64_MAX)
  {
    match parseHash(value)
    case Some(hash) => Ok(Hash(hash))
    case None =>
      match ParseU64(value)
      case Ok(n) => Ok(Number(n))
      case Err(e) => Err(e)
  }

  /**
   * With `B256::from_str` read as in `B256Hex`, the decimal form of any
   * `u64` is too short to be a hash and is always taken as a number.
   */
  lemma DecimalIsBlockNumber(n: uint64)
    ensures HashOrNumValueParser(B256FromStr, ToDecimal(n as nat)) == Ok(Number(n))
  {
    var d := ToDecimal(n as nat);
    U64DecimalLength(n as nat);
    assert |HexBody(d)| <= 20;
    ParseU64OfDecimal(n);
  }

  /** With the same reading, a hash's display form is always taken as that hash. */
  lemma DisplayedHashIsBlockHash(hash: B256)
    ensures HashOrNumValueParser(B256FromStr, B256ToString(hash)) == Ok(Hash(hash))
  {
    DisplayThenParse(hash);
  }

  /**
   * With the same reading, 64 decimal digits form a hash, even though the
   * same characters are also a decimal numeral.
   */
  lemma DecimalDigitsOfHashLengthAreHash(value: string)
    requires |value| == 64 && AllDigits(value)
    ensures HashOrNumValueParser(B256FromStr, value).Ok?
    ensures HashOrNumValueParser(B256FromStr, value).value.Hash?
  {
    assert !StartsWith(value, "0x") by {
      assert IsDigit(value[1]);
    }
    assert AllHex(HexBody(value));
  }

  // ------------------------------------------------------- socket address

  datatype Ipv4Addr = Ipv4Addr(a: uint8, b: uint8, c: uint8, d: uint8)

  /** `Ipv4Addr::LOCALHOST`, 127.0.0.1. */
  const LOCALHOST: Ipv4Addr := Ipv4Addr(127, 0, 0, 1)

  /** The eight 16-bit segments of an IPv6 address. */
  type Segments8 = s: seq<uint16> | |s| == 8 witness [0, 0, 0, 0, 0, 0, 0, 0]

  datatype IpAddr = V4(v4: Ipv4Addr) | V6(segments: Segments8)

  /** An IPv4 address as a 32-bit number, first octet most significant. */
  function V4Bits(addr: Ipv4Addr): nat {
    ((addr.a as nat * 256 + addr.b as nat) * 256 + addr.c as nat) * 256 + addr.d as nat
  }

  /** IPv6 segments as one number, first segment most significant. */
  function SegmentsValue(segments: seq<uint16>): nat {
    if segments == [] then 0
    else SegmentsValue(segments[..|segments| - 1]) * 0x1_0000 + segments[|segments| - 1] as nat
  }

  /**
   * `IpAddr::is_loopback`: an IPv4 address in the block 127.0.0.0/8, or the
   * eight-segment IPv6 address whose 128-bit value is 1 (`::1`).
   */
  predicate IsLoopback(ip: IpAddr)
    ensures ip.V4? ==> (IsLoopback(ip) <==> 0x7F00_0000 <= V4Bits(ip.v4) < 0x8000_0000)
    ensures ip.V6? ==> (IsLoopback(ip) <==> SegmentsValue(ip.segments) == 1)
  {
    match ip
    case V4(addr) => addr.a == 127
    case V6(segments) =>
      SegmentsValueOfLoopback(segments);
      segments == [0, 0, 0, 0, 0, 0, 0, 1]
  }

  /** Segments are worth 0 exactly when every one of them is 0. */
  lemma {:induction false} SegmentsValueZero(segments: seq<uint16>)
    ensures SegmentsValue(segments) == 0 <==> forall i | 0 <= i < |segments| :: segments[i] == 0
  {
    if segments != [] {
      var init := segments[..|segments| - 1];
      SegmentsValueZero(init);
      if SegmentsValue(segments) == 0 {
        forall i | 0 <= i < |segments| ensures segments[i] == 0 {
          if i < |init| {
            assert segments[i] == init[i];
          }
        }
      }
    }
  }

  /** Eight segments are worth 1 exactly when they spell `::1`. */
  lemma SegmentsValueOfLoopback(segments: Segments8)
    ensures SegmentsValue(segments) == 1 <==> segments == [0, 0, 0, 0, 0, 0, 0, 1]
  {
    var init := segments[..7];
    SegmentsValueZero(init);
    assert SegmentsValue(segments) == SegmentsValue(init) * 0x1_0000 + segments[7] as nat;
    if segments == [0, 0, 0, 0, 0, 0, 0, 1] {
      assert forall i | 0 <= i < 7 :: init[i] == 0;
    }
    if SegmentsValue(segments) == 1 {
      assert SegmentsValue(init) == 0;
      assert segments == init + [segments[7]];
      assert init == [0, 0, 0, 0, 0, 0, 0];
    }
  }

  datatype SocketAddr = SocketAddr(ip: IpAddr, port: uint16)

  /** The loopback address with the given port. */
  function Local(port: uint16): SocketAddr {
    SocketAddr(V4(LOCALHOST), port)
  }

  /** An I/O failure reported by the resolver; its contents are not modelled. */
  datatype IoError = IoError(message: string)

  /** What the host resolver (`to_socket_addrs`) reports for a string. */
  datatype Resolution = Failed(err: IoError) | Resolved(addrs: seq<SocketAddr>)

  /** `SocketAddressParsingError`. */
  datatype SocketAddressParsingError =
    | Io(io: IoError)
    | Empty
    | Parse(value: string)
    | Port(port: IntErrorKind)

  /** `value` starts with `:` or with `localhost:`, so what follows is a port. */
  predicate HasPortPrefix(value: string) {
    StartsWith(value, ":") || StartsWith(value, "localhost:")
  }

  /** What follows the port prefix, `:` being tried before `localhost:`. */
  function PortText(value: string): (port: string)
    requires HasPortPrefix(value)
    ensures (if StartsWith(value, ":") then ":" else "localhost:") + port == value
  {
    if StartsWith(value, ":") then value[1..] else value[|"localhost:"|..]
  }

  /** The strings `parse_socket_address` answers without consulting the resolver. */
  predicate AnsweredLocally(value: string) {
    value == [] || HasPortPrefix(value) || Fits(value, U16_MAX)
  }

  /**
   * `parse_socket_address`: the empty string is refused; a port after `:` or
   * `localhost:`, or a bare port, is that port on 127.0.0.1; anything else is
   * resolved, and the first address found is the answer.
   */
  function ParseSocketAddress(resolve: string -> Resolution, value: string)
    : (r: Result<SocketAddr, SocketAddressParsingError>)
    ensures r == Err(SocketAddressParsingError.Empty) <==> value == []
    ensures r.Err? && r.error.Port? ==> HasPortPrefix(value)
    ensures AnsweredLocally(value) ==> r.Ok? ==> r.value.ip == V4(LOCALHOST)
    ensures !AnsweredLocally(value) ==>
      (r.Ok? <==> resolve(value).Resolved? && resolve(value).addrs != [])
    ensures !AnsweredLocally(value) && r.Ok? ==> r.value == resolve(value).addrs[0]
  {
    if value == [] then Err(SocketAddressParsingError.Empty)
    else
      var prefixed := match StripPrefix(value, ":")
        case Some(rest) => Some(rest)
        case None => StripPrefix(value, "localhost:");
      match prefixed
      case Some(port) =>
        (match ParseU16(port)
         case Ok(p) => Ok(Local(p))
         case Err(e) => Err(Port(e)))
      case None =>
        match ParseU16(value)
        case Ok(p) => Ok(Local(p))
        case Err(_) =>
          match resolve(value)
          case Failed(e) => Err(Io(e))
          case Resolved(addrs) =>
            if addrs == [] then Err(Parse(value)) else Ok(addrs[0])
  }

  /**
   * A port prefix followed by a valid port is that port on loopback; followed
   * by anything else it is a `Port` error carrying the integer-parse error,
   * and the resolver is never reached.
   */
  lemma PrefixedPort(resolve: string -> Resolution, value: string)
    requires value != [] && HasPortPrefix(value)
    ensures var r := ParseSocketAddress(resolve, value);
      && (Fits(PortText(value), U16_MAX) ==>
            r.Ok? && r.value.ip == V4(LOCALHOST) && r.value.port as nat == LiteralValue(PortText(value)))
      && (!Fits(PortText(value), U16_MAX) ==>
            r == Err(Port(RejectionKind(PortText(value), U16_MAX))))
  {
  }

  /** A bare port that is not prefixed is that port on loopback. */
  lemma BarePort(resolve: string -> Resolution, value: string)
    requires Fits(value, U16_MAX)
    ensures ParseSocketAddress(resolve, value) == Ok(Local(LiteralValue(value) as uint16))
  {
  }

  /**
   * For every port, its decimal form, `:` before it and `localhost:` before
   * it all give that port on the loopback address.
   */
  lemma PortShorthandsAreLoopback(resolve: string -> Resolution, port: uint16)
    ensures ParseSocketAddress(resolve, ToDecimal(port as nat)) == Ok(Local(port))
    ensures ParseSocketAddress(resolve, ":" + ToDecimal(port as nat)) == Ok(Local(port))
    ensures ParseSocketAddress(resolve, "localhost:" + ToDecimal(port as nat)) == Ok(Local(port))
    ensures IsLoopback(Local(port).ip)
  {
    var d := ToDecimal(port as nat);
    FormatThenParse(port as nat, U16_MAX);
    BarePort(resolve, d);
    PrefixedPort(resolve, ":" + d);
    assert PortText(":" + d) == d;
    var l := "localhost:" + d;
    assert StartsWith(l, "localhost:");
    assert !StartsWith(l, ":");
    PrefixedPort(resolve, l);
    assert PortText(l) == d;
  }

  /** The result for a string answered locally does not depend on the resolver. */
  lemma LocalAnswerIgnoresResolver(resolve1: string -> Resolution, resolve2: string -> Resolution, value: string)
    requires AnsweredLocally(value)
    ensures ParseSocketAddress(resolve1, value) == ParseSocketAddress(resolve2, value)
  {
    if value != [] && !HasPortPrefix(value) {
      BarePort(resolve1, value);
      BarePort(resolve2, value);
    }
  }

  /**
   * Any other string goes to the resolver: its I/O failure is an `Io` error,
   * an empty answer is a `Parse` error carrying the input, and otherwise the
   * first address is the result.
   */
  lemma ResolvedAddress(resolve: string -> Resolution, value: string)
    requires !AnsweredLocally(value)
    ensures resolve(value).Failed? ==>
      ParseSocketAddress(resolve, value) == Err(Io(resolve(value).err))
    ensures resolve(value) == Resolved([]) ==>
      ParseSocketAddress(resolve, value) == Err(Parse(value))
    ensures resolve(value).Resolved? && resolve(value).addrs != [] ==>
      ParseSocketAddress(resolve, value) == Ok(resolve(value).addrs[0])
  {
  }

  /**
   * A decimal number past the largest port is not a `Port` error: it is not
   * prefixed, so it is handed to the resolver.
   */
  lemma OutOfRangeBarePortIsResolved(resolve: string -> Resolution, n: nat)
    requires n > U16_MAX
    ensures !AnsweredLocally(ToDecimal(n))
    ensures ParseSocketAddress(resolve, ToDecimal(n)).Ok? ==>
      ParseSocketAddress(resolve, ToDecimal(n)) == Ok(resolve(ToDecimal(n)).addrs[0])
  {
    var d := ToDecimal(n);
    FormatThenParse(n, U16_MAX);
    assert !HasPortPrefix(d) by {
      assert IsDigit(d[0]);
    }
  }

  /** The decimal form of the port the tests use. */
  lemma Decimal9000()
    ensures ToDecimal(9000) == "9000"
  {
    assert ToDecimal(9) == "9";
    assert ToDecimal(90) == ToDecimal(9) + "0";
    assert ToDecimal(900) == ToDecimal(90) + "0";
    assert ToDecimal(9000) == ToDecimal(900) + "0";
  }

  /** The test address `9000` is port 9000 on loopback. */
  lemma BarePortExample(resolve: string -> Resolution)
    ensures ParseSocketAddress(resolve, "9000") == Ok(Local(9000))
  {
    PortShorthandsAreLoopback(resolve, 9000);
    Decimal9000();
  }

  /** The test address `:9000` is port 9000 on loopback. */
  lemma ColonPortExample(resolve: string -> Resolution)
    ensures ParseSocketAddress(resolve, ":9000") == Ok(Local(9000))
  {
    PortShorthandsAreLoopback(resolve, 9000);
    Decimal9000();
    assert ":" + "9000" == ":9000";
  }

  /** The test address `localhost:9000` is port 9000 on loopback. */
  lemma LocalhostPortExample(resolve: string -> Resolution)
    ensures ParseSocketAddress(resolve, "localhost:9000") == Ok(Local(9000))
  {
    PortShorthandsAreLoopback(resolve, 9000);
    Decimal9000();
    assert "localhost:" + "9000" == "localhost:9000";
  }
}
