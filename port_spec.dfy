/** Choosing the listening port (src/run.py): the `--port` option is either
    a number or an "auto" spec, and auto mode searches upward from a start
    port for one that is not in use. */
module PortSpec {
  import opened Http
  import opened Strings

  /** The exceptions that escape `run_server` while choosing a port. */
  datatype RunError =
    | ValueError(text: string)    // `int()` refused the text
    | OverflowError(port: int)    // the socket probe refused a port outside 0..65535

  datatype Result<+T> = Ok(value: T) | Err(error: RunError)

  /** What the `--port` option asks for. */
  datatype PortRequest = Auto(start: int) | Fixed(port: int)

  const DefaultStart := 8000
  const MaxPort := 65535

  // ---- `str.lower` and `str.startswith` ----

  function LowerChar(c: char): char
  {
    if 'A' <= c <= 'Z' then (c as int + 32) as char else c
  }

  function Lower(s: string): string
  {
    seq(|s|, i requires 0 <= i < |s| => LowerChar(s[i]))
  }

  predicate StartsWith(s: string, prefix: string)
  {
    |prefix| <= |s| && s[..|prefix|] == prefix
  }

  /** `port.lower().startswith("auto")`: the first four characters spell
      `auto` in any mix of cases, and the rest does not matter. */
  predicate IsAutoMode(port: string)
    ensures IsAutoMode(port) <==>
      |port| >= 4 && port[0] in {'a', 'A'} && port[1] in {'u', 'U'} && port[2] in {'t', 'T'} && port[3] in {'o', 'O'}
  {
    if |port| < 4 then false
    else
      LowerCharMatches(port[0], 'a');
      LowerCharMatches(port[1], 'u');
      LowerCharMatches(port[2], 't');
      LowerCharMatches(port[3], 'o');
      assert Lower(port)[..4] == [LowerChar(port[0]), LowerChar(port[1]), LowerChar(port[2]), LowerChar(port[3])];
      StartsWith(Lower(port), "auto")
  }

  /** The characters that lower-case to a given lower-case letter. */
  lemma LowerCharMatches(c: char, lower: char)
    requires 'a' <= lower <= 'z'
    ensures LowerChar(c) == lower <==> c == lower || c as int == lower as int - 32
  {
  }

  // ---- `int()` on decimal text ----

  predicate IsDigit(c: char)
  {
    '0' <= c <= '9'
  }

  predicate AllDigits(s: string)
  {
    forall i :: 0 <= i < |s| ==> IsDigit(s[i])
  }

  function DecimalValue(s: string): nat
    requires AllDigits(s)
  {
    if s == [] then 0 else DecimalValue(s[..|s| - 1]) * 10 + (s[|s| - 1] as int - '0' as int)
  }

  /** `int(text)` for an optional sign followed by decimal digits; `None`
      where `int` raises `ValueError`. */
  function ParseInt(text: string): (r: Option<int>)
    ensures r.Some? <==>
      || (|text| > 0 && AllDigits(text))
      || (|text| > 1 && (text[0] == '-' || text[0] == '+') && AllDigits(text[1..]))
    ensures |text| > 0 && AllDigits(text) ==> r == Some(DecimalValue(text))
    ensures |text| > 1 && text[0] == '-' && AllDigits(text[1..]) ==> r == Some(-(DecimalValue(text[1..]) as int))
    ensures |text| > 1 && text[0] == '+' && AllDigits(text[1..]) ==> r == Some(DecimalValue(text[1..]))
    ensures r.Some? && r.value < 0 ==> text[0] == '-'
    ensures r.Some? ==> ':' !in text
  {
    if |text| > 0 && (text[0] == '-' || text[0] == '+') then
      if |text| > 1 && AllDigits(text[1..]) then
        var magnitude: int := DecimalValue(text[1..]);
        Some(if text[0] == '-' then -magnitude else magnitude)
      else None
    else if |text| > 0 && AllDigits(text) then Some(DecimalValue(text))
    else None
  }

  /** `str(n)` for a natural number: its decimal digits, which `int` reads back. */
  function NatToString(n: nat): (s: string)
    ensures |s| > 0 && AllDigits(s)
    ensures DecimalValue(s) == n
  {
    var last := ['0' + (n % 10) as char];
    if n < 10 then last
    else
      var s := NatToString(n / 10) + last;
      assert s[..|s| - 1] == NatToString(n / 10);
      s
  }

  /** `str(n)`. */
  function IntToString(n: int): string
  {
    if n < 0 then "-" + NatToString(-n) else NatToString(n)
  }

  /** `int(str(n)) == n`. */
  lemma ParseIntOfIntToString(n: int)
    ensures ParseInt(IntToString(n)) == Some(n)
  {

  }

  // ---- `run_server`'s reading of `--port` ----

  /** The branch of `run_server` that reads `--port`.  In auto mode the spec
      must split on `:` into exactly two pieces, else the unpacking fails and
      the start is 8000; the second piece then goes to `int`, outside the
      `try`, so a non-number there escapes as `ValueError`. */
  function ParsePortSpec(port: string): (r: Result<PortRequest>)
    ensures r.Ok? && r.value.Auto? ==> IsAutoMode(port)
    ensures r.Ok? && r.value.Fixed? ==> !IsAutoMode(port) && ParseInt(port) == Some(r.value.port)
    ensures r.Err? ==> r.error.ValueError?
    ensures !IsAutoMode(port) ==>
      r == (if ParseInt(port).Some? then Ok(Fixed(ParseInt(port).value)) else Err(ValueError(port)))
  {
    if IsAutoMode(port) then
      var parts := Split(port, ':');
      if |parts| != 2 then Ok(Auto(DefaultStart))
      else
        match ParseInt(parts[1])
        case Some(start) => Ok(Auto(start))
        case None => Err(ValueError(parts[1]))
    else
      match ParseInt(port)
      case Some(n) => Ok(Fixed(n))
      case None => Err(ValueError(port))
  }

  /** Auto mode with a single colon takes its start from the text after it. */
  lemma AutoWithOneColon(mode: string, start: string)
    requires IsAutoMode(mode + ":" + start)
    requires ':' !in mode && ':' !in start
    ensures ParseInt(start).Some? ==> ParsePortSpec(mode + ":" + start) == Ok(Auto(ParseInt(start).value))
    ensures ParseInt(start).None? ==> ParsePortSpec(mode + ":" + start) == Err(ValueError(start))
  {
    assert mode + ":" + start == mode + [':'] + start;
    SplitAtOnlySeparator(mode, start, ':');
  }

  /** Auto mode with no colon, or with two or more, starts at 8000. */
  lemma AutoWithoutSingleColon(port: string)
    requires IsAutoMode(port)
    requires Count(port, ':') != 1
    ensures ParsePortSpec(port) == Ok(Auto(DefaultStart))
  {
  }

  /** Auto mode is recognised whatever the case of `auto` and whatever
      follows it: `AUTO:9000` and `autox:9000` both ask for a search from 9000. */
  lemma AutoSpecRoundTrip(mode: string, start: int)
    requires IsAutoMode(mode) && ':' !in mode
    ensures ParsePortSpec(mode + ":" + IntToString(start)) == Ok(Auto(start))
  {
    var text := IntToString(start);
    NoColonInNumber(start);
    LowerAppend(mode, ":" + text);
    assert mode + ":" + text == mode + (":" + text);
    assert Lower(mode + ":" + text)[..4] == Lower(mode)[..4];
    AutoWithOneColon(mode, text);
    ParseIntOfIntToString(start);
  }

  /** A plain number is used as it is. */
  lemma FixedSpecRoundTrip(n: int)
    ensures ParsePortSpec(IntToString(n)) == Ok(Fixed(n))
  {
    var text := IntToString(n);
    assert Lower(text)[0] == LowerChar(text[0]);
    ParseIntOfIntToString(n);
  }

  lemma NoColonInNumber(n: int)
    ensures ':' !in IntToString(n)
  {

  }

  lemma LowerAppend(a: string, b: string)
    ensures Lower(a + b) == Lower(a) + Lower(b)
  {
  }

  // ---- `find_port` ----

  /** `find_port(port)`: probe `port` and, while it is in use, the next one.
      `inUse` stands for the socket probe (a successful `connect_ex`); the
      probe raises `OverflowError` for a port outside 0..65535, which ends
      the search. */
  function FindPort(port: int, inUse: int -> bool): (r: Result<int>)
    ensures r.Ok? ==> 0 <= port <= r.value <= MaxPort && !inUse(r.value)
    ensures r.Ok? ==> forall q :: port <= q < r.value ==> inUse(q)
    ensures r.Err? <==> port < 0 || forall q :: port <= q <= MaxPort ==> inUse(q)
    ensures r.Err? ==> r.error.OverflowError?
    decreases MaxPort + 1 - port
  {
    if port < 0 || port > MaxPort then Err(OverflowError(port))
    else if inUse(port) then FindPort(port + 1, inUse)
    else Ok(port)
  }

  /** The port `run_server` ends up using. */
  function SelectPort(port: string, inUse: int -> bool): (r: Result<int>)
    ensures r.Ok? && IsAutoMode(port) ==> !inUse(r.value) && 0 <= r.value <= MaxPort
    ensures r.Ok? && !IsAutoMode(port) ==> ParseInt(port) == Some(r.value)
    ensures ParsePortSpec(port).Err? ==> r == Err(ParsePortSpec(port).error)
    ensures ParsePortSpec(port).Ok? && ParsePortSpec(port).value.Auto? ==>
      r == FindPort(ParsePortSpec(port).value.start, inUse)
    ensures ParsePortSpec(port).Ok? && ParsePortSpec(port).value.Fixed? ==>
      r == Ok(ParsePortSpec(port).value.port)
  {
    match ParsePortSpec(port)
    case Err(e) => Err(e)
    case Ok(Auto(start)) => FindPort(start, inUse)
    case Ok(Fixed(n)) => Ok(n)
  }

  /** The search returns the first free port at or above the start. */
  lemma FindPortIsFirstFree(start: int, inUse: int -> bool, p: int)
    requires 0 <= start <= p <= MaxPort && !inUse(p)
    requires forall q :: start <= q < p ==> inUse(q)
    ensures FindPort(start, inUse) == Ok(p)
  {
  }
}
