/** The process-wide HTTP client defaults: built-in values, overridden one by one from
    the environment at start-up, and the dialer, transport and client built from them. */
module HttpDefaults {

  import opened Outcomes

  // ---------------------------------------------------------------------------------
  // 64-bit integers

  const Int64Min: int := -0x8000_0000_0000_0000
  const Int64Max: int := 0x7FFF_FFFF_FFFF_FFFF
  const TwoTo64: int := 0x1_0000_0000_0000_0000

  predicate IsInt64(n: int) {
    Int64Min <= n <= Int64Max
  }

  /** Two's-complement wrap-around of a mathematical integer into int64. */
  function Wrap64(x: int): (r: int)
    ensures IsInt64(r)
    ensures IsInt64(x) ==> r == x
  {
    (x - Int64Min) % TwoTo64 + Int64Min
  }

  /** The wrapped value differs from the mathematical one by a multiple of 2^64. */
  lemma Wrap64Congruent(x: int)
    ensures (Wrap64(x) - x) % TwoTo64 == 0
  {
    var q := (x - Int64Min) / TwoTo64;
    assert x - Int64Min == q * TwoTo64 + (x - Int64Min) % TwoTo64;
    assert Wrap64(x) - x == -q * TwoTo64;
  }

  // ---------------------------------------------------------------------------------
  // Decimal integers (strconv.ParseInt with base 10 and strconv.FormatInt)

  predicate IsDigit(c: char) {
    '0' <= c <= '9'
  }

  function DigitValue(c: char): nat
    requires IsDigit(c)
  {
    c as int - '0' as int
  }

  predicate AllDigits(ds: string) {
    forall i :: 0 <= i < |ds| ==> IsDigit(ds[i])
  }

  /** strconv.ParseUint(ds, 10, 64) without its range check: one or more decimal digits,
      leading zeros allowed, and nothing else. */
  function ParseUnsigned(ds: string): (r: Option<nat>)
    ensures r.Some? <==> |ds| > 0 && AllDigits(ds)
    decreases |ds|
  {
    if ds == [] || !IsDigit(ds[|ds| - 1]) then None
    else if |ds| == 1 then Some(DigitValue(ds[0]))
    else
      match ParseUnsigned(ds[..|ds| - 1])
      case None =>
        assert forall i :: 0 <= i < |ds| - 1 ==> ds[..|ds| - 1][i] == ds[i];
        None
      case Some(u) => Some(10 * u + DigitValue(ds[|ds| - 1]))
  }

  /** A leading zero does not change the value of a digit string. */
  lemma {:induction false} LeadingZeroIgnored(ds: string)
    requires |ds| > 0
    ensures ParseUnsigned("0" + ds) == ParseUnsigned(ds)
    decreases |ds|
  {
    var zs := "0" + ds;
    if |ds| > 1 && IsDigit(ds[|ds| - 1]) {
      assert zs[..|zs| - 1] == "0" + ds[..|ds| - 1];
      LeadingZeroIgnored(ds[..|ds| - 1]);
    }
  }

  /** An optional + or - sign and one or more decimal digits, nothing else. */
  predicate IsDecimal(s: string) {
    |s| > 0 && |Magnitude(s)| > 0 && AllDigits(Magnitude(s))
  }

  /** The digits of a decimal string: all of it after an optional sign. */
  function Magnitude(s: string): string
    requires |s| > 0
  {
    if s[0] == '+' || s[0] == '-' then s[1..] else s
  }

  /** The value a decimal string denotes, negated after a minus sign. */
  function SignedValue(s: string): int
    requires IsDecimal(s)
  {
    var u := ParseUnsigned(Magnitude(s)).value;
    if s[0] == '-' then 0 - u else u
  }

  /** strconv.ParseInt(s, 10, 64): an optional + or - sign and at least one decimal
      digit, nothing else (no spaces, no underscores, no base prefix), and a value within
      int64; anything else is an error, here None. */
  function ParseInt(s: string): (r: Option<int>)
    ensures r.Some? ==> IsDecimal(s) && r.value == SignedValue(s) && IsInt64(r.value)
    ensures IsDecimal(s) && IsInt64(SignedValue(s)) ==> r == Some(SignedValue(s))
  {
    if s == [] then None
    else
      var digits := if s[0] == '+' || s[0] == '-' then s[1..] else s;
      match ParseUnsigned(digits)
      case None => None
      case Some(u) =>
        var v: int := if s[0] == '-' then 0 - u else u;
        if IsInt64(v) then Some(v) else None
  }

  function DigitChar(d: nat): (c: char)
    requires d < 10
    ensures IsDigit(c) && DigitValue(c) == d
  {
    ('0' as int + d) as char
  }

  /** The decimal digits of n, without leading zeros. */
  function Digits(n: nat): (ds: string)
    ensures |ds| > 0 && AllDigits(ds)
    ensures ds[0] == '0' ==> n == 0
  {
    if n < 10 then [DigitChar(n)] else Digits(n / 10) + [DigitChar(n % 10)]
  }

  /** strconv.FormatInt(n, 10): a minus sign for a negative value, then the digits of
      its magnitude without leading zeros. */
  function FormatInt(n: int): (s: string)
    ensures IsDecimal(s) && s[0] != '+' && (s[0] == '-' <==> n < 0)
    ensures Magnitude(s)[0] == '0' ==> n == 0
  {
    if n < 0 then "-" + Digits(-n) else Digits(n)
  }

  /** The digits of n read back as n. */
  lemma {:induction false} DigitsValue(n: nat)
    ensures ParseUnsigned(Digits(n)) == Some(n)
  {
    if n >= 10 {
      var ds := Digits(n);
      DigitsValue(n / 10);
      assert ds[..|ds| - 1] == Digits(n / 10);
    }
  }

  /** Round trip: every int64 value, written in decimal, parses back to itself. */
  lemma ParseFormatted(n: int)
    requires IsInt64(n)
    ensures ParseInt(FormatInt(n)) == Some(n)
  {
    var s := FormatInt(n);
    if n < 0 {
      DigitsValue(-n);
      assert s[1..] == Digits(-n);
    } else {
      DigitsValue(n);
    }
  }

  /** A decimal value outside int64 is a range error. */
  lemma OutOfRangeRejected(n: int)
    requires !IsInt64(n)
    ensures ParseInt(FormatInt(n)).None?
  {
    var s := FormatInt(n);
    if n < 0 {
      DigitsValue(-n);
      assert s[1..] == Digits(-n);
    } else {
      DigitsValue(n);
    }
  }

  /** A sign alone, a plus sign with leading zeros, and a stray character. */
  lemma ParseIntExamples()
    ensures ParseInt("-") == None && ParseInt("+") == None
    ensures ParseInt("+007") == Some(7) && ParseInt("-42") == Some(-42)
    ensures ParseInt("1_0") == None && ParseInt(" 1") == None
  {
    assert "+007"[1..] == "007" && "007"[..2] == "00" && "00"[..1] == "0";
    assert ParseUnsigned("00") == Some(0);
    assert "-42"[1..] == "42" && "42"[..1] == "4";
    assert "1_0"[..2] == "1_" && "1_"[..1] == "1";
    assert " 1"[..1] == " ";
  }

  // ---------------------------------------------------------------------------------
  // Settings and the environment

  /** The seven default HTTP settings (DefaultHTTP... package variables). */
  datatype Settings = Settings(
    timeoutSeconds: int,
    maxIdleConns: int,
    maxIdleConnsPerHost: int,
    idleConnTimeoutSeconds: int,
    dialTimeoutSeconds: int,
    keepAliveSeconds: int,
    dualStack: bool)

  /** The built-in values the package variables are declared with. */
  const BuiltIn: Settings := Settings(10, 100, 100, 90, 30, 120, true)

  const DebugVar := "KCC_GO_DEBUG"
  const TimeoutVar := "KCC_GO_HTTP_TIMEOUT"
  const MaxIdleConnsVar := "KCC_GO_HTTP_MAX_IDLE_CONNS"
  const MaxIdleConnsPerHostVar := "KCC_GO_HTTP_MAX_IDLE_CONNS_PER_HOST"
  const IdleConnTimeoutVar := "KCC_GO_HTTP_IDLE_CONN_TIMEOUT"
  const DialTimeoutVar := "KCC_GO_HTTP_DIAL_TIMEOUT"
  const KeepAliveVar := "KCC_GO_HTTP_KEEPALIVE"
  const DualStackVar := "KCC_GO_HTTP_DUALSTACK"

  /** The process environment, as os.Getenv sees it: an unset variable reads as "". */
  type Environment = map<string, string>

  function Getenv(env: Environment, key: string): string {
    if key in env then env[key] else ""
  }

  /** An integer setting: replaced by the value of a non-empty variable that parses as a
      decimal int64, kept otherwise. */
  function IntOverride(current: int, v: string): (r: int)
    ensures r == current || ParseInt(v) == Some(r)
    ensures ParseInt(v).None? ==> r == current
    ensures ParseInt(v).Some? ==> r == ParseInt(v).value
  {
    if v != "" then
      match ParseInt(v)
      case Some(n) => n
      case None => current
    else current
  }

  const OffWords: set<string> := {"off", "false", "no"}
  const OnWords: set<string> := {"on", "true", "yes"}

  /** The dual-stack flag: switched off by off/false/no, on by on/true/yes, and kept for
      any other value, an empty or unset variable included. */
  function DualStackOverride(current: bool, v: string): (r: bool)
    ensures r != current ==> v in OffWords + OnWords
    ensures v in OffWords ==> !r
    ensures v in OnWords ==> r
  {
    if v != "" then
      if v in OffWords then false
      else if v in OnWords then true
      else current
    else current
  }

  /** The seven overridable settings, each controlled by one variable. */
  datatype Knob = Timeout | MaxIdleConns | MaxIdleConnsPerHost | IdleConnTimeout | DialTimeout | KeepAlive | DualStack

  /** The variable that controls a setting. */
  function Var(k: Knob): string {
    match k
    case Timeout => TimeoutVar
    case MaxIdleConns => MaxIdleConnsVar
    case MaxIdleConnsPerHost => MaxIdleConnsPerHostVar
    case IdleConnTimeout => IdleConnTimeoutVar
    case DialTimeout => DialTimeoutVar
    case KeepAlive => KeepAliveVar
    case DualStack => DualStackVar
  }

  /** Distinct settings are controlled by distinct variables. */
  lemma VarInjective(k: Knob, m: Knob)
    requires k != m
    ensures Var(k) != Var(m)
  {
    if |Var(k)| == |Var(m)| {
      assert {k, m} == {KeepAlive, DualStack};
      assert Var(k)[12] != Var(m)[12];
    }
  }

  /** The value of one setting, of either kind. */
  datatype SettingValue = IntValue(n: int) | BoolValue(b: bool)

  function Setting(s: Settings, k: Knob): SettingValue {
    match k
    case Timeout => IntValue(s.timeoutSeconds)
    case MaxIdleConns => IntValue(s.maxIdleConns)
    case MaxIdleConnsPerHost => IntValue(s.maxIdleConnsPerHost)
    case IdleConnTimeout => IntValue(s.idleConnTimeoutSeconds)
    case DialTimeout => IntValue(s.dialTimeoutSeconds)
    case KeepAlive => IntValue(s.keepAliveSeconds)
    case DualStack => BoolValue(s.dualStack)
  }

  /** A setting's value overridden by the value `v` of its variable, by the rule of its kind. */
  function OverrideValue(x: SettingValue, v: string): SettingValue {
    match x
    case IntValue(n) => IntValue(IntOverride(n, v))
    case BoolValue(b) => BoolValue(DualStackOverride(b, v))
  }

  /** The effect of the value `v` of a setting's variable: that setting follows the rule of
      its kind, and every other setting is unchanged. */
  function Overridden(s: Settings, k: Knob, v: string): (r: Settings)
    ensures Setting(r, k) == OverrideValue(Setting(s, k), v)
    ensures forall other :: other != k ==> Setting(r, other) == Setting(s, other)
  {
    match k
    case Timeout => s.(timeoutSeconds := IntOverride(s.timeoutSeconds, v))
    case MaxIdleConns => s.(maxIdleConns := IntOverride(s.maxIdleConns, v))
    case MaxIdleConnsPerHost => s.(maxIdleConnsPerHost := IntOverride(s.maxIdleConnsPerHost, v))
    case IdleConnTimeout => s.(idleConnTimeoutSeconds := IntOverride(s.idleConnTimeoutSeconds, v))
    case DialTimeout => s.(dialTimeoutSeconds := IntOverride(s.dialTimeoutSeconds, v))
    case KeepAlive => s.(keepAliveSeconds := IntOverride(s.keepAliveSeconds, v))
    case DualStack => s.(dualStack := DualStackOverride(s.dualStack, v))
  }

  /** One step of start-up: a setting overridden from its variable. It changes no other
      setting, and nothing at all when the variable is unset or empty. */
  function Step(s: Settings, env: Environment, k: Knob): (r: Settings)
    ensures forall other :: other != k ==> Setting(r, other) == Setting(s, other)
    ensures Getenv(env, Var(k)) == "" ==> r == s
  {
    Overridden(s, k, Getenv(env, Var(k)))
  }

  /** The settings after start-up: each setting is its start value overridden by its own
      variable, whatever the other variables hold. */
  function Configure(start: Settings, env: Environment): (r: Settings)
    ensures forall k :: Setting(r, k) == OverrideValue(Setting(start, k), Getenv(env, Var(k)))
  {
    Settings(
      IntOverride(start.timeoutSeconds, Getenv(env, TimeoutVar)),
      IntOverride(start.maxIdleConns, Getenv(env, MaxIdleConnsVar)),
      IntOverride(start.maxIdleConnsPerHost, Getenv(env, MaxIdleConnsPerHostVar)),
      IntOverride(start.idleConnTimeoutSeconds, Getenv(env, IdleConnTimeoutVar)),
      IntOverride(start.dialTimeoutSeconds, Getenv(env, DialTimeoutVar)),
      IntOverride(start.keepAliveSeconds, Getenv(env, KeepAliveVar)),
      DualStackOverride(start.dualStack, Getenv(env, DualStackVar)))
  }

  /** Start-up applies the variables one at a time, in the order it reads them; since each
      step touches only its own setting, the result is Configure. */
  lemma ConfigureInOrder(start: Settings, env: Environment)
    ensures Configure(start, env)
      == Step(Step(Step(Step(Step(Step(Step(start, env, Timeout), env, MaxIdleConns), env, MaxIdleConnsPerHost),
                                  env, IdleConnTimeout), env, DialTimeout), env, KeepAlive), env, DualStack)
  {
  }

  /** Independence: changing, setting or unsetting one setting's variable changes no other
      setting. */
  lemma VariablesIndependent(start: Settings, env: Environment, k: Knob, v: string, other: Knob)
    requires other != k
    ensures Setting(Configure(start, env[Var(k) := v]), other) == Setting(Configure(start, env), other)
  {
    VarInjective(k, other);
  }

  /** Variables other than the seven have no effect on the settings. */
  lemma OtherVariablesIgnored(start: Settings, env: Environment, key: string, v: string)
    requires forall k: Knob :: key != Var(k)
    ensures Configure(start, env[key := v]) == Configure(start, env)
  {
    assert key != Var(Timeout) && key != Var(MaxIdleConns) && key != Var(MaxIdleConnsPerHost);
    assert key != Var(IdleConnTimeout) && key != Var(DialTimeout) && key != Var(KeepAlive);
    assert key != Var(DualStack);
  }

  /** With none of the seven variables set, every setting keeps its start value. */
  lemma UnsetKeepsDefaults(start: Settings, env: Environment)
    requires forall k: Knob :: Var(k) !in env
    ensures Configure(start, env) == start
  {
    assert Var(Timeout) !in env && Var(MaxIdleConns) !in env && Var(MaxIdleConnsPerHost) !in env;
    assert Var(IdleConnTimeout) !in env && Var(DialTimeout) !in env && Var(KeepAlive) !in env;
    assert Var(DualStack) !in env;
  }

  /** A variable set to the decimal form of an int64 value gives its setting that value. */
  lemma FormattedValueTaken(start: Settings, env: Environment, k: Knob, n: int)
    requires k != DualStack && IsInt64(n)
    requires Getenv(env, Var(k)) == FormatInt(n)
    ensures Setting(Configure(start, env), k) == IntValue(n)
  {
    ParseFormatted(n);
  }

  /** A variable that does not parse (or is out of range) leaves its setting at its start
      value. */
  lemma UnparsableIgnored(start: Settings, env: Environment, k: Knob)
    requires k != DualStack
    requires ParseInt(Getenv(env, Var(k))).None?
    ensures Setting(Configure(start, env), k) == Setting(start, k)
  {
  }

  /** The dual-stack flag after start-up, for each value of its variable. */
  lemma DualStackWords(start: Settings, env: Environment)
    ensures Getenv(env, DualStackVar) in OffWords ==> !Configure(start, env).dualStack
    ensures Getenv(env, DualStackVar) in OnWords ==> Configure(start, env).dualStack
    ensures Getenv(env, DualStackVar) !in OffWords + OnWords ==> Configure(start, env).dualStack == start.dualStack
  {
    assert Setting(Configure(start, env), DualStack)
        == BoolValue(DualStackOverride(start.dualStack, Getenv(env, DualStackVar)));
  }

  // ---------------------------------------------------------------------------------
  // Derived values

  /** Nanoseconds in a second. */
  const Second: int := 1_000_000_000

  /** time.Duration(n) * time.Second: an int64 product, which wraps around. */
  function Seconds(n: int): (d: int)
    ensures IsInt64(d)
  {
    Wrap64(n * Second)
  }

  /** The largest whole number of seconds a Duration holds. */
  const MaxWholeSeconds: int := 9_223_372_036

  /** Within ±MaxWholeSeconds the scaling is exact; one more second wraps to a negative. */
  lemma SecondsExact(n: int)
    requires -MaxWholeSeconds <= n <= MaxWholeSeconds
    ensures Seconds(n) == n * Second
  {
  }

  lemma SecondsWraps()
    ensures Seconds(MaxWholeSeconds + 1) == (MaxWholeSeconds + 1) * Second - TwoTo64
    ensures Seconds(MaxWholeSeconds + 1) < 0
  {
    var x := (MaxWholeSeconds + 1) * Second;
    assert Wrap64(x) == x - TwoTo64 by {
      assert (x - Int64Min) % TwoTo64 == x - Int64Min - TwoTo64;
    }
  }

  /** The dialer: dial and keep-alive durations and the dual-stack flag. */
  datatype Dialer = Dialer(timeout: int, keepAlive: int, dualStack: bool)

  /** The transport: its dialer, the idle-connection limits and timeout, and the fixed
      TLS-handshake and expect-continue timeouts (durations in nanoseconds). */
  datatype Transport = Transport(
    dialer: Dialer,
    maxIdleConns: int,
    maxIdleConnsPerHost: int,
    idleConnTimeout: int,
    tlsHandshakeTimeout: int,
    expectContinueTimeout: int)

  /** The client: its overall timeout and its transport. */
  datatype Client = Client(timeout: int, transport: Transport)

  /** A number of seconds a Duration holds exactly. */
  predicate InRange(n: int) {
    -MaxWholeSeconds <= n <= MaxWholeSeconds
  }

  function DialerFor(s: Settings): (d: Dialer)
    ensures d.dualStack == s.dualStack
    ensures InRange(s.dialTimeoutSeconds) ==> d.timeout == s.dialTimeoutSeconds * Second
    ensures InRange(s.keepAliveSeconds) ==> d.keepAlive == s.keepAliveSeconds * Second
  {
    SecondsExactWhenInRange(s.dialTimeoutSeconds);
    SecondsExactWhenInRange(s.keepAliveSeconds);
    Dialer(Seconds(s.dialTimeoutSeconds), Seconds(s.keepAliveSeconds), s.dualStack)
  }

  function TransportFor(s: Settings): (t: Transport)
    ensures t.dialer == DialerFor(s)
    ensures t.maxIdleConns == s.maxIdleConns && t.maxIdleConnsPerHost == s.maxIdleConnsPerHost
    ensures InRange(s.idleConnTimeoutSeconds) ==> t.idleConnTimeout == s.idleConnTimeoutSeconds * Second
    ensures t.tlsHandshakeTimeout == 10 * Second && t.expectContinueTimeout == Second
  {
    SecondsExactWhenInRange(s.idleConnTimeoutSeconds);
    Transport(DialerFor(s), s.maxIdleConns, s.maxIdleConnsPerHost,
              Seconds(s.idleConnTimeoutSeconds), 10 * Second, 1 * Second)
  }

  function ClientFor(s: Settings): (c: Client)
    ensures c.transport == TransportFor(s)
    ensures InRange(s.timeoutSeconds) ==> c.timeout == s.timeoutSeconds * Second
  {
    SecondsExactWhenInRange(s.timeoutSeconds);
    Client(Seconds(s.timeoutSeconds), TransportFor(s))
  }

  lemma SecondsExactWhenInRange(n: int)
    ensures InRange(n) ==> Seconds(n) == n * Second
  {
    if InRange(n) {
      SecondsExact(n);
    }
  }

  /** With the built-in settings: a 10 s client timeout, 30 s dial timeout, 120 s
      keep-alive, 90 s idle timeout, 100 idle connections overall and per host. */
  lemma BuiltInDerived()
    ensures ClientFor(BuiltIn).timeout == 10 * Second
    ensures DialerFor(BuiltIn) == Dialer(30 * Second, 120 * Second, true)
    ensures TransportFor(BuiltIn).idleConnTimeout == 90 * Second
    ensures TransportFor(BuiltIn).maxIdleConns == 100 && TransportFor(BuiltIn).maxIdleConnsPerHost == 100
  {
    SecondsExact(10);
    SecondsExact(30);
    SecondsExact(120);
    SecondsExact(90);
  }

  // ---------------------------------------------------------------------------------
  // The package variables and start-up

  /** The package's default variables, the debug flag, and the default transport and
      client, which are nil until start-up builds them. */
  class Defaults {
    var timeoutSeconds: int
    var maxIdleConns: int
    var maxIdleConnsPerHost: int
    var idleConnTimeoutSeconds: int
    var dialTimeoutSeconds: int
    var keepAliveSeconds: int
    var dualStack: bool
    var debug: bool
    var transport: Option<Transport>
    var client: Option<Client>

    function Current(): Settings
      reads this
    {
      Settings(timeoutSeconds, maxIdleConns, maxIdleConnsPerHost, idleConnTimeoutSeconds,
               dialTimeoutSeconds, keepAliveSeconds, dualStack)
    }

    /** The variables as declared, before start-up. */
    constructor ()
      ensures Current() == BuiltIn && !debug && transport == None && client == None
    {
      timeoutSeconds, maxIdleConns, maxIdleConnsPerHost := 10, 100, 100;
      idleConnTimeoutSeconds, dialTimeoutSeconds, keepAliveSeconds := 90, 30, 120;
      dualStack, debug := true, false;
      transport, client := None, None;
    }

    /** Start-up (init): the debug flag, each setting overridden from its variable in
        turn, then the dialer, transport and client built from the final values. */
    method Init(env: Environment)
      modifies this
      ensures debug <==> Getenv(env, DebugVar) != ""
      ensures Current() == Configure(old(Current()), env)
      ensures transport == Some(TransportFor(Current()))
      ensures client == Some(ClientFor(Current()))
    {
      ghost var goal := Configure(Current(), env);
      debug := Getenv(env, DebugVar) != "";

      // each variable in turn: an integer setting takes a non-empty value that parses,
      // the dual-stack flag one of its six words
      timeoutSeconds := IntOverride(timeoutSeconds, Getenv(env, TimeoutVar));
      maxIdleConns := IntOverride(maxIdleConns, Getenv(env, MaxIdleConnsVar));
      maxIdleConnsPerHost := IntOverride(maxIdleConnsPerHost, Getenv(env, MaxIdleConnsPerHostVar));
      idleConnTimeoutSeconds := IntOverride(idleConnTimeoutSeconds, Getenv(env, IdleConnTimeoutVar));
      dialTimeoutSeconds := IntOverride(dialTimeoutSeconds, Getenv(env, DialTimeoutVar));
      keepAliveSeconds := IntOverride(keepAliveSeconds, Getenv(env, KeepAliveVar));
      dualStack := DualStackOverride(dualStack, Getenv(env, DualStackVar));
      assert Current() == goal;

      var settings := Current();
      transport := Some(TransportFor(settings));
      client := Some(ClientFor(settings));
    }
  }
}
