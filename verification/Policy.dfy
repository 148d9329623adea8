/**
 Freshness of stored responses: the age of a response, its lifetime, and what a
 request accepts.  Durations are 64-bit nanoseconds that saturate; instants are
 nanoseconds on one clock.
 */
module Policy {
  import opened Common

  const MAX: int := 0x7FFF_FFFF_FFFF_FFFF
  const MIN: int := -0x8000_0000_0000_0000
  const SECOND: int := 1_000_000_000

  type Duration = d: int | MIN <= d <= MAX

  /** The difference of two instants, held inside 64 bits. */
  function Sub(a: int, b: int): Duration {
    if a - b > MAX then MAX else if a - b < MIN then MIN else a - b
  }

  function AddAge(a: Duration, b: Duration): Duration
    requires b >= 0 && a >= 0
  {
    if a > MAX - b then MAX else a + b
  }

  // -------------------------------------------------------------- directives

  /** Whole seconds that fit a duration. */
  function DeltaSeconds(s: string): (d: Option<Duration>)
    ensures d.Some? ==> d.value >= 0
  {
    if s != [] && AllDigits(s) && DecimalValue(s) <= MAX / SECOND then Some(DecimalValue(s) * SECOND) else None
  }

  /** One directive of a Cache-Control field: a lower-case name, perhaps with a value. */
  datatype Directive = Directive(name: string, value: Option<string>)

  function Unquoted(s: string): string {
    if |s| >= 2 && s[0] == '"' && s[|s| - 1] == '"' then s[1..|s| - 1] else s
  }

  predicate Numeric(name: string, request: bool) {
    name == "max-age" || (!request && name == "s-maxage") || (request && name == "min-fresh")
  }

  predicate Flag(name: string, request: bool) {
    name == "no-cache" ||
    (!request && (name == "public" || name == "must-revalidate" || name == "proxy-revalidate" || name == "immutable" || name == "no-transform"))
  }

  /** A directive that is understood. */
  predicate Supported(d: Directive, request: bool) {
    if Numeric(d.name, request) then d.value.Some? && DeltaSeconds(Unquoted(d.value.value)).Some?
    else Flag(d.name, request) && d.value.None?
  }

  function Meaning(d: Directive, request: bool): string {
    if d.value.None? then "" else if Numeric(d.name, request) then Unquoted(d.value.value) else d.value.value
  }

  predicate NoNameTwice(list: seq<Directive>) {
    forall i, j | 0 <= i < j < |list| :: list[i].name != list[j].name
  }

  /** The value of a directive that is understood. */
  method DirectiveValue(d: Directive, request: bool) returns (r: Option<string>)
    ensures r == if Supported(d, request) then Some(Meaning(d, request)) else None
  {
    var value := if d.value.Some? then d.value.value else "";
    if Numeric(d.name, request) {
      if d.value.None? {
        return None;
      }
      value := Unquoted(value);
      if DeltaSeconds(value).None? {
        return None;
      }
    } else if !Flag(d.name, request) || d.value.Some? {
      return None;
    }
    return Some(value);
  }

  /** The directives of a list by name. */
  function Table(list: seq<Directive>, request: bool): map<string, string> {
    if list == [] then map[]
    else Table(list[..|list| - 1], request)[list[|list| - 1].name := Meaning(list[|list| - 1], request)]
  }

  predicate AllSupported(list: seq<Directive>, request: bool) {
    forall i | 0 <= i < |list| :: Supported(list[i], request)
  }

  lemma {:induction false} TableHas(list: seq<Directive>, request: bool, name: string)
    ensures name in Table(list, request) <==> exists i :: 0 <= i < |list| && list[i].name == name
  {
    if list != [] {
      var rest := list[..|list| - 1];
      TableHas(rest, request, name);
      if name in Table(rest, request) {
        var i :| 0 <= i < |rest| && rest[i].name == name;
        assert list[i].name == name;
      }
    }
  }

  lemma TableOneMore(list: seq<Directive>, request: bool, i: nat)
    requires i < |list| && NoNameTwice(list[..i])
    ensures Table(list[..i + 1], request) == Table(list[..i], request)[list[i].name := Meaning(list[i], request)]
    ensures NoNameTwice(list[..i + 1]) <==> list[i].name !in Table(list[..i], request)
    ensures NoNameTwice(list) ==> NoNameTwice(list[..i + 1])
  {
    assert list[..i + 1][..i] == list[..i];
    TableHas(list[..i], request, list[i].name);
    if list[i].name in Table(list[..i], request) {
      var j :| 0 <= j < i && list[..i][j].name == list[i].name;
      assert list[..i + 1][j].name == list[..i + 1][i].name;
    }
  }

  /** What the directives mean is independent of their order: each name has the value it was given. */
  lemma {:induction false} TableIs(list: seq<Directive>, request: bool, i: nat)
    requires i < |list| && NoNameTwice(list)
    ensures list[i].name in Table(list, request) && Table(list, request)[list[i].name] == Meaning(list[i], request)
  {
    if i < |list| - 1 {
      TableIs(list[..|list| - 1], request, i);
      assert list[i].name != list[|list| - 1].name;
    }
  }

  /** Every numeric directive is a number. */
  predicate Parsed(directives: map<string, string>, request: bool) {
    forall name | name in directives && Numeric(name, request) :: DeltaSeconds(directives[name]).Some?
  }

  /** What the parser gives back is a table of numbers where numbers are expected. */
  lemma {:induction false} TableIsParsed(list: seq<Directive>, request: bool)
    requires AllSupported(list, request)
    ensures Parsed(Table(list, request), request)
  {
    if list != [] {
      TableIsParsed(list[..|list| - 1], request);
    }
  }

  /** All directives by name; anything repeated or not understood refuses the whole field. */
  method CacheDirectives(list: seq<Directive>, request: bool) returns (r: Option<map<string, string>>)
    ensures r == if NoNameTwice(list) && AllSupported(list, request) then Some(Table(list, request)) else None
    ensures r.Some? ==> Parsed(r.value, request)
  {
    var directives: map<string, string> := map[];
    for i := 0 to |list|
      invariant NoNameTwice(list[..i]) && directives == Table(list[..i], request)
      invariant forall j | 0 <= j < i :: Supported(list[j], request)
    {
      TableOneMore(list, request, i);
      if list[i].name in directives {
        return None;
      }
      var value := DirectiveValue(list[i], request);
      if value.None? {
        return None;
      }
      directives := directives[list[i].name := value.value];
    }
    assert list[..|list|] == list;
    TableIsParsed(list, request);
    return Some(directives);
  }

  /** The text is the number in decimal digits. */
  ghost predicate Spells(s: string, n: nat) {
    s != [] && AllDigits(s) && DecimalValue(s) == n
  }

  /** The text is the number in decimal digits, in quotation marks or not. */
  ghost predicate SpellsQuoted(s: string, n: nat) {
    Spells(s, n) || exists digits :: Spells(digits, n) && s == "\"" + digits + "\""
  }

  /** A count of seconds is read exactly if the nanoseconds fit 63 bits. */
  lemma SecondsAreRead(s: string, n: nat)
    ensures DeltaSeconds(s) == Some(n * 1_000_000_000) <==> Spells(s, n) && n <= 9_223_372_036
  {
  }

  lemma QuotesGo(s: string, n: nat)
    ensures Spells(Unquoted(s), n) <==> SpellsQuoted(s, n)
  {
    var u := Unquoted(s);
    if Spells(u, n) && u != s {
      assert s == "\"" + u + "\"";
    }
    if digits :| Spells(digits, n) && s == "\"" + digits + "\"" {
      assert s[0] == '"' && s[|s| - 1] == '"' && s[1..|s| - 1] == digits;
    }
    if Spells(s, n) {
      assert IsDigit(s[0]);
    }
  }

  /** The names that need a number, and those that stand alone. */
  const REQUEST_NUMBERS: set<string> := {"max-age", "min-fresh"}
  const RESPONSE_NUMBERS: set<string> := {"max-age", "s-maxage"}
  const REQUEST_FLAGS: set<string> := {"no-cache"}
  const RESPONSE_FLAGS: set<string> := {"no-cache", "public", "must-revalidate", "proxy-revalidate", "immutable", "no-transform"}

  /** A directive is understood exactly if it is a number in its place, quoted or not, or a name that stands alone. */
  lemma SupportedExactly(d: Directive, request: bool)
    ensures Supported(d, request) <==>
      || (d.name in (if request then REQUEST_NUMBERS else RESPONSE_NUMBERS)
          && d.value.Some? && exists n: nat :: n <= 9_223_372_036 && SpellsQuoted(d.value.value, n))
      || (d.name in (if request then REQUEST_FLAGS else RESPONSE_FLAGS) && d.value.None?)
  {
    NamesAreKnown(d.name, request);
    if d.value.Some? {
      var u := Unquoted(d.value.value);
      if DeltaSeconds(u).Some? {
        SecondsAreRead(u, DecimalValue(u));
        QuotesGo(d.value.value, DecimalValue(u));
      }
      if n: nat :| n <= 9_223_372_036 && SpellsQuoted(d.value.value, n) {
        QuotesGo(d.value.value, n);
        SecondsAreRead(u, n);
      }
    }
  }

  lemma NamesAreKnown(name: string, request: bool)
    ensures Numeric(name, request) <==> name in (if request then REQUEST_NUMBERS else RESPONSE_NUMBERS)
    ensures Flag(name, request) <==> name in (if request then REQUEST_FLAGS else RESPONSE_FLAGS)
  {
  }

  // ------------------------------------------------------------------- the age

  datatype DateField = NoDate | Malformed | At(time: int)

  /** What is stored with a response.  `plain` says that nothing else forbids its reuse. */
  datatype Info = Info(
    plain: bool,
    directives: Option<map<string, string>>,
    ages: seq<string>,
    date: DateField,
    requestTime: int,
    responseTime: int)

  datatype Freshness = Freshness(age: Duration, lifetime: Duration, validate: bool, evaluated: int)

  /** The lifetime for a shared cache. */
  function Lifetime(directives: map<string, string>): Option<Duration> {
    if "s-maxage" in directives then DeltaSeconds(directives["s-maxage"])
    else if "public" in directives then DeltaSeconds(if "max-age" in directives then directives["max-age"] else "")
    else None
  }

  function AgeValue(ages: seq<string>): Option<Duration> {
    if |ages| == 0 then Some(0) else if |ages| == 1 then DeltaSeconds(ages[0]) else None
  }

  /** Everything but the clock allows the response to be reused. */
  predicate Reusable(info: Info) {
    && info.plain && info.directives.Some? && Lifetime(info.directives.value).Some? && AgeValue(info.ages).Some?
    && !info.date.Malformed? && Sub(info.responseTime, info.requestTime) >= 0
  }

  /** The age the response had when it arrived. */
  function InitialAge(info: Info): (a: Duration)
    requires Reusable(info)
    ensures a >= 0
  {
    var age := AddAge(AgeValue(info.ages).value, Sub(info.responseTime, info.requestTime));
    if info.date.At? && Sub(info.responseTime, info.date.time) > age then Sub(info.responseTime, info.date.time) else age
  }

  /** Read the policy of a stored response, step by step. */
  method ResponsePolicy(info: Info, now: int) returns (r: Option<Freshness>)
    ensures r == PolicyAt(info, now)
  {
    if !info.plain || info.directives.None? {
      return None;
    }
    var directives := info.directives.value;
    var shared := "s-maxage" in directives;
    if "public" !in directives && !shared {
      return None;
    }
    var text := if shared then directives["s-maxage"] else if "max-age" in directives then directives["max-age"] else "";
    var lifetime := DeltaSeconds(text);
    if lifetime.None? {
      return None;
    }
    var age: Duration := 0;
    if |info.ages| > 0 {
      if |info.ages| != 1 {
        return None;
      }
      var value := DeltaSeconds(info.ages[0]);
      if value.None? {
        return None;
      }
      age := value.value;
    }
    var delay, resident := Sub(info.responseTime, info.requestTime), Sub(now, info.responseTime);
    if delay < 0 || resident < 0 {
      return None;
    }
    age := AddAge(age, delay);
    if info.date.Malformed? {
      return None;
    }
    if info.date.At? {
      var apparent := Sub(info.responseTime, info.date.time);
      age := if apparent > age then apparent else age;
    }
    age := AddAge(age, resident);
    return Some(Freshness(age, lifetime.value, "no-cache" in directives, now));
  }

  function PolicyAt(info: Info, now: int): Option<Freshness> {
    if Reusable(info) && Sub(now, info.responseTime) >= 0 then
      Some(Freshness(AddAge(InitialAge(info), Sub(now, info.responseTime)), Lifetime(info.directives.value).value,
                     "no-cache" in info.directives.value, now))
    else None
  }

  /** The age of a policy that was read earlier. */
  function CurrentAge(p: Freshness, now: int): Option<Duration>
    requires p.age >= 0
  {
    var elapsed := Sub(now, p.evaluated);
    if elapsed < 0 then None else Some(AddAge(p.age, elapsed))
  }

  /** The age is the one of section 4.2.3 of RFC 9111, held inside 64 bits. */
  lemma AgeIsStandard(info: Info, now: int)
    requires PolicyAt(info, now).Some?
    ensures
      var apparent := if info.date.At? then Max(0, info.responseTime - info.date.time) else 0;
      var corrected := Max(apparent, AgeValue(info.ages).value + (info.responseTime - info.requestTime));
      var current := corrected + (now - info.responseTime);
      PolicyAt(info, now).value.age == if current > MAX then MAX else current
  {
  }

  /** Moving a policy on agrees with reading it again. */
  lemma AdvancingAgrees(info: Info, t1: int, t2: int)
    requires t1 <= t2 && PolicyAt(info, t1).Some?
    ensures PolicyAt(info, t2).Some?
    ensures
      var p1, p2 := PolicyAt(info, t1).value, PolicyAt(info, t2).value;
      CurrentAge(p1, t2) == Some(p2.age) && p2.lifetime == p1.lifetime && p2.validate == p1.validate
  {
    AgeIsStandard(info, t1);
    AgeIsStandard(info, t2);
  }

  // ------------------------------------------------------------- the request

  /** A request: whether it has a Pragma field, and its cache directives. */
  datatype Request = Request(pragma: bool, directives: Option<map<string, string>>)

  predicate RequestOk(r: Request) { r.directives.Some? ==> Parsed(r.directives.value, true) }

  predicate RequestPolicyFresh(r: Request, p: Freshness, now: int)
    requires RequestOk(r) && p.age >= 0
  {
    && CurrentAge(p, now).Some? && !p.validate && !r.pragma && r.directives.Some?
    && Accepts(r.directives.value, CurrentAge(p, now).value, p.lifetime)
  }

  /** The age is below the lifetime and within what the request asks for. */
  predicate Accepts(d: map<string, string>, age: Duration, lifetime: Duration)
    requires Parsed(d, true)
  {
    && age < lifetime && "no-cache" !in d
    && ("max-age" in d ==> age <= DeltaSeconds(d["max-age"]).value)
    && ("min-fresh" in d ==> DeltaSeconds(d["min-fresh"]).value < lifetime - age)
  }

  predicate RequestFresh(r: Request, info: Info, now: int)
    requires RequestOk(r)
  {
    PolicyAt(info, now).Some? && RequestPolicyFresh(r, PolicyAt(info, now).value, now)
  }

  // ----------------------------------------- freshness from the header fields

  predicate Has(list: seq<Directive>, name: string) {
    exists i :: 0 <= i < |list| && list[i].name == name
  }

  /** The number that a directive of this name was given. */
  ghost function Seconds(list: seq<Directive>, name: string): nat
    requires AllNumbers(list, name) && Has(list, name)
  {
    var i :| 0 <= i < |list| && list[i].name == name;
    DecimalValue(Unquoted(list[i].value.value))
  }

  predicate AllNumbers(list: seq<Directive>, name: string) {
    forall i | 0 <= i < |list| && list[i].name == name :: list[i].value.Some? && AllDigits(Unquoted(list[i].value.value))
  }

  /** A numeric directive is found in the table under its own number. */
  lemma TableGives(list: seq<Directive>, request: bool, name: string)
    requires NoNameTwice(list) && AllSupported(list, request)
    ensures name in Table(list, request) <==> Has(list, name)
    ensures Numeric(name, request) ==> AllNumbers(list, name)
    ensures Numeric(name, request) && Has(list, name) ==>
      DeltaSeconds(Table(list, request)[name]) == Some(Seconds(list, name) * SECOND)
  {
    TableHas(list, request, name);
    if Numeric(name, request) {
      forall i | 0 <= i < |list| && list[i].name == name
        ensures list[i].value.Some? && AllDigits(Unquoted(list[i].value.value))
      {
        assert Supported(list[i], request);
      }
      if Has(list, name) {
        var i :| 0 <= i < |list| && list[i].name == name && DecimalValue(Unquoted(list[i].value.value)) == Seconds(list, name);
        TableIs(list, request, i);
        assert Supported(list[i], request);
      }
    }
  }

  /** That number is written in the list under the name. */
  lemma SecondsAreWritten(list: seq<Directive>, request: bool, name: string)
    requires NoNameTwice(list) && AllSupported(list, request) && AllNumbers(list, name) && Has(list, name) && Numeric(name, request)
    ensures exists i | 0 <= i < |list| :: list[i].name == name && list[i].value.Some? && SpellsQuoted(list[i].value.value, Seconds(list, name))
  {
    var i :| 0 <= i < |list| && list[i].name == name && DecimalValue(Unquoted(list[i].value.value)) == Seconds(list, name);
    assert Supported(list[i], request);
    QuotesGo(list[i].value.value, Seconds(list, name));
  }

  /** No Age field counts as zero seconds; more than one, or one that is not a number, cannot be used. */
  lemma AgeIsRead(ages: seq<string>, n: nat)
    ensures AgeValue(ages) == Some(n * 1_000_000_000) <==>
      (ages == [] && n == 0) || (|ages| == 1 && Spells(ages[0], n) && n <= 9_223_372_036)
  {
    if |ages| == 1 { SecondsAreRead(ages[0], n); }
  }

  /** The lifetime that the fields of a response give it in a shared cache, in seconds. */
  ghost function SharedLifetime(list: seq<Directive>): Option<nat>
    requires AllNumbers(list, "s-maxage") && AllNumbers(list, "max-age")
  {
    if Has(list, "s-maxage") then Some(Seconds(list, "s-maxage"))
    else if Has(list, "public") && Has(list, "max-age") then Some(Seconds(list, "max-age"))
    else None
  }

  lemma LifetimeFromFields(list: seq<Directive>)
    requires NoNameTwice(list) && AllSupported(list, false)
    ensures AllNumbers(list, "s-maxage") && AllNumbers(list, "max-age")
    ensures Lifetime(Table(list, false)) == if SharedLifetime(list).Some? then Some(SharedLifetime(list).value * SECOND) else None
  {
    TableGives(list, false, "s-maxage");
    TableGives(list, false, "max-age");
    TableGives(list, false, "public");
  }

  /** The current age of section 4.2.3 of RFC 9111. */
  function StandardAge(info: Info, ageField: int, now: int): int {
    var apparent := if info.date.At? then Max(0, info.responseTime - info.date.time) else 0;
    Max(apparent, ageField + (info.responseTime - info.requestTime)) + (now - info.responseTime)
  }

  /** What the directives of a request say about an age in nanoseconds, against a lifetime in seconds. */
  ghost predicate Wants(list: seq<Directive>, age: int, lifetime: nat)
    requires AllNumbers(list, "max-age") && AllNumbers(list, "min-fresh")
  {
    && !Has(list, "no-cache")
    && (Has(list, "max-age") ==> age <= Seconds(list, "max-age") * SECOND)
    && (Has(list, "min-fresh") ==> age + Seconds(list, "min-fresh") * SECOND < lifetime * SECOND)
  }

  lemma AcceptsFromFields(list: seq<Directive>, age: int, held: Duration, lifetime: nat)
    requires NoNameTwice(list) && AllSupported(list, true) && lifetime * SECOND <= MAX
    requires 0 <= held && held == if age > MAX then MAX else age
    ensures AllNumbers(list, "max-age") && AllNumbers(list, "min-fresh") && Parsed(Table(list, true), true)
    ensures Accepts(Table(list, true), held, lifetime * SECOND) <==> age < lifetime * SECOND && Wants(list, age, lifetime)
  {
    TableIsParsed(list, true);
    TableGives(list, true, "max-age");
    TableGives(list, true, "min-fresh");
    TableGives(list, true, "no-cache");
  }

  /**
   A stored response answers a request exactly if nothing forbids its reuse, the
   clock has not gone back, neither side asks for validation, and the age of RFC
   9111, from the fields of the response and the clock, is below the shared
   lifetime and within what the request asks for.
   */
  lemma FreshFromFields(request: seq<Directive>, pragma: bool, response: seq<Directive>, info: Info, now: int)
    requires NoNameTwice(request) && AllSupported(request, true) && NoNameTwice(response) && AllSupported(response, false)
    requires info.directives == Some(Table(response, false))
    ensures AllNumbers(request, "max-age") && AllNumbers(request, "min-fresh")
    ensures AllNumbers(response, "s-maxage") && AllNumbers(response, "max-age")
    ensures
      var r := Request(pragma, Some(Table(request, true)));
      && RequestOk(r)
      && (RequestFresh(r, info, now) <==>
            && info.plain && !info.date.Malformed? && AgeValue(info.ages).Some?
            && info.requestTime <= info.responseTime <= now
            && !pragma && !Has(response, "no-cache") && SharedLifetime(response).Some?
            && var age, lifetime := StandardAge(info, AgeValue(info.ages).value, now), SharedLifetime(response).value;
               age < lifetime * SECOND && Wants(request, age, lifetime))
  {
    LifetimeFromFields(response);
    TableGives(response, false, "no-cache");
    TableIsParsed(request, true);
    TableGives(request, true, "max-age");
    TableGives(request, true, "min-fresh");
    if PolicyAt(info, now).Some? {
      AgeIsStandard(info, now);
      var p := PolicyAt(info, now).value;
      AcceptsFromFields(request, StandardAge(info, AgeValue(info.ages).value, now), p.age, SharedLifetime(response).value);
    }
  }

  /** A policy that has become stale for a request does not become fresh again. */
  lemma StalePolicyStaysStale(r: Request, p: Freshness, t1: int, t2: int)
    requires RequestOk(r) && p.age >= 0 && p.evaluated <= t1 <= t2 && !RequestPolicyFresh(r, p, t1)
    ensures !RequestPolicyFresh(r, p, t2)
  {
    var a1, a2 := CurrentAge(p, t1), CurrentAge(p, t2);
    assert a1.Some? && a2.Some? && a1.value <= a2.value;
  }

  /** A policy that was read earlier answers a request as one that is read now. */
  lemma EarlierPolicyDecides(r: Request, info: Info, t1: int, t2: int)
    requires RequestOk(r) && t1 <= t2 && PolicyAt(info, t1).Some?
    ensures RequestPolicyFresh(r, PolicyAt(info, t1).value, t2) <==> RequestFresh(r, info, t2)
  {
    AdvancingAgrees(info, t1, t2);
  }

  /** Once a response has arrived, being stale is final. */
  lemma StaleStaysStale(r: Request, info: Info, t1: int, t2: int)
    requires RequestOk(r) && info.responseTime <= t1 <= t2 && !RequestFresh(r, info, t1)
    ensures !RequestFresh(r, info, t2)
  {
    if PolicyAt(info, t1).Some? {
      EarlierPolicyDecides(r, info, t1, t2);
      StalePolicyStaysStale(r, PolicyAt(info, t1).value, t1, t2);
    }
  }

  /** Before that a clock that is behind makes any response stale. */
  lemma NotFreshBeforeArrival(r: Request, info: Info, t: int)
    requires RequestOk(r) && t < info.responseTime
    ensures !RequestFresh(r, info, t)
  {
  }

  /**
   Being stale is final exactly if the response has arrived or is stale on
   arrival already.
   */
  lemma StalenessIsFinalExactly(r: Request, info: Info, t1: int)
    requires RequestOk(r)
    ensures
      (forall t2 | t2 >= t1 :: !RequestFresh(r, info, t1) ==> !RequestFresh(r, info, t2))
      <==> info.responseTime <= t1 || !RequestFresh(r, info, info.responseTime)
  {
    if info.responseTime <= t1 {
      forall t2 | t2 >= t1 && !RequestFresh(r, info, t1) ensures !RequestFresh(r, info, t2) {
        StaleStaysStale(r, info, t1, t2);
      }
    } else {
      NotFreshBeforeArrival(r, info, t1);
      if !RequestFresh(r, info, info.responseTime) {
        forall t2 | t2 >= t1 ensures !RequestFresh(r, info, t2) {
          if t2 < info.responseTime {
            NotFreshBeforeArrival(r, info, t2);
          } else {
            StaleStaysStale(r, info, info.responseTime, t2);
          }
        }
      }
    }
  }

  const MINUTE := "60"

  /** Requested and received at the same instant, to be shared for a minute. */
  const Example := Info(true, Some(map["s-maxage" := MINUTE]), [], NoDate, SECOND, SECOND)

  /** A response that the clock calls stale and, going on, fresh. */
  lemma StaleThenFresh(r: Request)
    requires r == Request(false, Some(map[]))
    ensures RequestOk(r) && !RequestFresh(r, Example, SECOND - 1) && RequestFresh(r, Example, SECOND)
  {
    assert MINUTE[..1] == "6" && MINUTE[..1][..0] == "";
    assert DecimalValue(MINUTE) == 60;
  }
}
