/** The validating descriptors of src/Validator_Classes.py: each field kind's
    `validate`, the FQDN and IPv4 recognisers, and the "validate, then store"
    behaviour of `__set__` together with the `__get__` default. */
module Validators {
  import opened Wrappers
  import opened PyValues
  import opened Strings

  /** A descriptor as configured by its constructor. The `min` of `CharField` and
      `FQDNField` is already clamped by `ClampMin`; the other bounds are kept as given. */
  datatype Field =
    | IntegerField(lo: Option<int>, hi: Option<int>)
    | CharField(min: int, max: Option<int>)
    | BoolField
    | FQDNField(min: int, max: Option<int>)
    | IPv4Field

  /** `max(min_ or 0, 0)`: an absent, zero or negative lower bound becomes 0. */
  function ClampMin(min_: Option<int>): (m: int)
    ensures m >= 0
    ensures min_.Some? && min_.value >= 0 ==> m == min_.value
    ensures min_.None? || min_.value <= 0 ==> m == 0
  {
    var m := if min_.Some? && min_.value != 0 then min_.value else 0;
    if m > 0 then m else 0
  }

  /** `CharField(min_, max_)`. */
  function NewCharField(min_: Option<int>, max_: Option<int>): Field {
    CharField(ClampMin(min_), max_)
  }

  /** `FQDNField(min_, max_)`; `FQDNField()` passes 1 and 255. */
  function NewFQDNField(min_: Option<int>, max_: Option<int>): Field {
    FQDNField(ClampMin(min_), max_)
  }

  const DefaultFQDNField: Field := NewFQDNField(Some(1), Some(255))

  /** `isinstance(v, numbers.Integral)`: bool is a subclass of int in Python. */
  predicate IsIntegral(v: Value) {
    v.VInt? || v.VBool?
  }

  /** The integer an integral value compares as (True is 1, False is 0). */
  function IntValue(v: Value): int
    requires IsIntegral(v)
  {
    if v.VInt? then v.i else if v.b then 1 else 0
  }

  predicate IsAsciiLetter(c: char) { ('a' <= c <= 'z') || ('A' <= c <= 'Z') }

  predicate IsAsciiAlnum(c: char) { IsAsciiLetter(c) || IsDigit(c) }

  /** A character of a DNS label: letter, digit or hyphen. */
  predicate IsLdh(c: char) { IsAsciiAlnum(c) || c == '-' }

  /** A label matched by `[a-z0-9]([a-z-0-9-]{0,61}[a-z0-9])?` ignoring case:
      1 to 63 letters, digits or hyphens, beginning and ending with a letter or digit. */
  predicate LabelShape(l: string) {
    && 1 <= |l| <= 63
    && IsAsciiAlnum(l[0])
    && IsAsciiAlnum(l[|l| - 1])
    && forall i :: 0 < i < |l| - 1 ==> IsLdh(l[i])
  }

  /** `re.match` of the label pattern: `$` also matches just before a final newline. */
  predicate LabelMatches(l: string) {
    LabelShape(l) || (|l| >= 1 && l[|l| - 1] == '\n' && LabelShape(l[..|l| - 1]))
  }

  /** `all(fqdn.match(label) for label in labels)`. */
  function AllLabelsMatch(labels: seq<string>): (r: bool)
    ensures r <==> forall l :: l in labels ==> LabelMatches(l)
    decreases |labels|
  {
    if labels == [] then true
    else
      assert labels == [labels[0]] + labels[1..];
      LabelMatches(labels[0]) && AllLabelsMatch(labels[1..])
  }

  /** Remove one trailing dot. */
  function DropTrailingDot(s: string): string
    requires s != []
  {
    if s[|s| - 1] == '.' then s[..|s| - 1] else s
  }

  /** The labels `is_fqdn` checks. */
  function Labels(value: string): seq<string>
    requires value != []
  {
    Split(DropTrailingDot(value), '.')
  }

  /** `FQDNField.is_fqdn`: None stands for the IndexError `value[-1]` raises on "". */
  function IsFqdn(value: string): (r: Option<bool>)
    ensures r.None? <==> value == []
    ensures r.Some? ==> (r.value <==> forall l :: l in Labels(value) ==> LabelMatches(l))
  {
    if value == [] then None else Some(AllLabelsMatch(Labels(value)))
  }

  /** The regular expression of `is_ipv4` for one octet, alternative by alternative:
      `25[0-5]`, `2[0-4]\d`, `1\d\d`, `[1-9]\d`, `\d`. */
  predicate OctetPattern(p: string) {
    || (|p| == 3 && p[0] == '2' && p[1] == '5' && '0' <= p[2] <= '5')
    || (|p| == 3 && p[0] == '2' && '0' <= p[1] <= '4' && IsDigit(p[2]))
    || (|p| == 3 && p[0] == '1' && IsDigit(p[1]) && IsDigit(p[2]))
    || (|p| == 2 && '1' <= p[0] <= '9' && IsDigit(p[1]))
    || (|p| == 1 && IsDigit(p[0]))
  }

  /** Three octets each followed by a dot, then a fourth octet. */
  predicate DottedQuad(s: string) {
    var parts := Split(s, '.');
    |parts| == 4 && forall k :: 0 <= k < 4 ==> OctetPattern(parts[k])
  }

  /** `IPv4Field.is_ipv4` as a truth value; `$` admits one final newline. */
  predicate IsIPv4(s: string) {
    DottedQuad(s) || (|s| >= 1 && s[|s| - 1] == '\n' && DottedQuad(s[..|s| - 1]))
  }

  /** `validate` of each field kind. */
  function Validate(f: Field, v: Value): Outcome {
    match f
    case IntegerField(lo, hi) =>
      if !IsIntegral(v) then Raised(ValueError)
      else if lo.Some? && IntValue(v) < lo.value then Raised(ValueError)
      else if hi.Some? && IntValue(v) > hi.value then Raised(ValueError)
      else Returned
    case CharField(min, max) =>
      if !v.VStr? then Raised(ValueError)
      else if |Strip(v.s)| < min then Raised(ValueError)
      else if max.Some? && |Strip(v.s)| > max.value then Raised(ValueError)
      else Returned
    case BoolField =>
      if v.VBool? then Returned else Raised(ValueError)
    case FQDNField(min, max) =>
      // len(value) exists for strings and lists only
      if !(v.VStr? || v.VList?) then Raised(TypeError)
      else
        var n := if v.VStr? then |v.s| else |v.items|;
        // the chained comparison min < n < max stops at its first false link
        if !(min < n) then Raised(ValueError)
        else if max.None? then Raised(TypeError)
        else if !(n < max.value) then Raised(ValueError)
        else if v.VList? then Raised(AttributeError)   // a list has no split()
        else if IsFqdn(v.s) == Some(true) then Returned
        else Raised(ValueError)
    case IPv4Field =>
      if !v.VStr? then Raised(TypeError)
      else if IsIPv4(v.s) then Returned
      else Raised(ValueError)
  }

  // ---------------------------------------------------------------------------
  // What each validator accepts

  /** An integer field accepts exactly the integral values within the bounds that were given. */
  lemma IntegerFieldExact(lo: Option<int>, hi: Option<int>, v: Value)
    ensures Validate(IntegerField(lo, hi), v).Returned? <==>
      IsIntegral(v) && (lo.None? || lo.value <= IntValue(v)) && (hi.None? || IntValue(v) <= hi.value)
    ensures Validate(IntegerField(lo, hi), v).Raised? ==> Validate(IntegerField(lo, hi), v).error == ValueError
  {
  }

  /** A string field measures the stripped text, so blanks never satisfy a positive minimum. */
  lemma {:induction false} CharFieldBlankRejected(min_: Option<int>, max_: Option<int>, s: string)
    requires min_.Some? && min_.value >= 1
    requires forall k :: 0 <= k < |s| ==> IsSpace(s[k])
    ensures Validate(NewCharField(min_, max_), VStr(s)) == Raised(ValueError)
  {
    StripBlank(s);
  }

  /** A bool field accepts the two booleans and nothing else, not even 0 or 1. */
  lemma BoolFieldExact(v: Value)
    ensures Validate(BoolField, v).Returned? <==> (v == VBool(true) || v == VBool(false))
  {
  }

  /** The FQDN field tests the length strictly between its bounds before the labels,
      so `is_fqdn` is never given the empty string, whose `value[-1]` would raise. */
  lemma FqdnFieldExact(min_: Option<int>, max_: Option<int>, s: string)
    ensures Validate(NewFQDNField(min_, max_), VStr(s)).Returned? <==>
      ClampMin(min_) < |s| && max_.Some? && |s| < max_.value && IsFqdn(s) == Some(true)
    ensures ClampMin(min_) < |s| ==> IsFqdn(s).Some?
  {
  }

  /** Without newlines, `is_fqdn` holds exactly when every label has the DNS label shape. */
  lemma {:induction false} FqdnExact(value: string)
    requires value != [] && '\n' !in value
    ensures IsFqdn(value) == Some(true) <==> forall l :: l in Labels(value) ==> LabelShape(l)
  {
    var d := DropTrailingDot(value);
    assert forall x :: x in d ==> x in value;
    SplitChars(d, '.');
    forall l | l in Labels(value)
      ensures LabelMatches(l) <==> LabelShape(l)
    {
      if |l| >= 1 {
        assert l[|l| - 1] in l;
      }
    }
  }

  /** Two dots in a row leave an empty label, and the name is refused. */
  lemma {:induction false} EmptyLabelRejected(a: string, b: string)
    ensures IsFqdn(a + ".." + b) == Some(false)
  {
    var value := a + ".." + b;
    var d := DropTrailingDot(value);
    if b == [] {
      assert d == a + "." + "";
      SplitConcat(a, "", '.');
    } else {
      var b' := if b[|b| - 1] == '.' then b[..|b| - 1] else b;
      assert d == a + "." + ("." + b');
      SplitConcat(a, "." + b', '.');
      assert "." + b' == [] + ['.'] + b';
      SplitConcat([], b', '.');
    }
    assert "" in Labels(value);
  }

  /** `is_fqdn("a..b")` is false. */
  lemma DoubleDotExample()
    ensures IsFqdn("a..b") == Some(false)
  {
    EmptyLabelRejected("a", "b");
    assert "a" + ".." + "b" == "a..b";
  }

  /** The joined text ends with the last character of the last piece when that piece is not empty. */
  lemma {:induction false} JoinLast(parts: seq<string>, c: char)
    requires |parts| >= 1 && parts[|parts| - 1] != []
    ensures var j := Join(parts, c); j != [] && j[|j| - 1] == parts[|parts| - 1][|parts[|parts| - 1]| - 1]
    decreases |parts|
  {
    if |parts| > 1 {
      JoinLast(parts[1..], c);
    }
  }

  /** A dotted name made of well-formed labels, within the default length bounds, passes `FQDNField()`. */
  lemma {:induction false} ShapedLabelsAccepted(parts: seq<string>)
    requires |parts| >= 1 && forall l :: l in parts ==> LabelShape(l)
    requires 1 < |Join(parts, '.')| < 255
    ensures Validate(DefaultFQDNField, VStr(Join(parts, '.'))) == Returned
  {
    var host := Join(parts, '.');
    assert parts[|parts| - 1] in parts;
    JoinLast(parts, '.');
    assert DropTrailingDot(host) == host;
    assert forall l :: l in parts ==> '.' !in l;
    JoinSplit(parts, '.');
    assert AllLabelsMatch(Labels(host));
    FqdnFieldExact(Some(1), Some(255), host);
  }

  // ---------------------------------------------------------------------------
  // The IPv4 pattern in arithmetic terms

  /** The value of numerals of one, two and three digits. */
  lemma ShortDecimalValue(p: string)
    requires 1 <= |p| <= 3 && AllDigits(p)
    ensures |p| == 1 ==> DecimalValue(p) == DigitValue(p[0])
    ensures |p| == 2 ==> DecimalValue(p) == DigitValue(p[0]) * 10 + DigitValue(p[1])
    ensures |p| == 3 ==> DecimalValue(p) == DigitValue(p[0]) * 100 + DigitValue(p[1]) * 10 + DigitValue(p[2])
  {
    var p1 := p[..|p| - 1];
    if |p| >= 2 {
      var p2 := p1[..|p1| - 1];
      if |p| == 3 {
        assert p2[..|p2| - 1] == [];
        assert p2 == [p[0]] && p1 == [p[0], p[1]];
      } else {
        assert p2 == [];
        assert p1 == [p[0]];
      }
    } else {
      assert p1 == [];
    }
  }

  /** The numerals of values below 1000, digit by digit. */
  lemma ShortDecimal(n: nat)
    requires n < 1000
    ensures n < 10 ==> Decimal(n) == [DigitChar(n)]
    ensures 10 <= n < 100 ==> Decimal(n) == [DigitChar(n / 10), DigitChar(n % 10)]
    ensures 100 <= n ==> Decimal(n) == [DigitChar(n / 100), DigitChar(n / 10 % 10), DigitChar(n % 10)]
  {
    if n >= 10 {
      var m := n / 10;
      if m >= 10 {
        assert Decimal(m / 10) == [DigitChar(n / 100)];
        assert Decimal(m) == [DigitChar(n / 100)] + [DigitChar(m % 10)];
      }
    }
  }

  /** An octet of the pattern is a numeral of 0..255 with no leading zero. */
  lemma OctetMeaning(p: string)
    ensures OctetPattern(p) <==>
      1 <= |p| <= 3 && AllDigits(p) && (p[0] == '0' ==> |p| == 1) && DecimalValue(p) <= 255
  {
    if 1 <= |p| <= 3 && AllDigits(p) {
      ShortDecimalValue(p);
    }
  }

  /** The numeral of every value 0..255 is an octet of the pattern, and reads back as that value. */
  lemma DecimalOctet(n: nat)
    requires n <= 255
    ensures OctetPattern(Decimal(n)) && DecimalValue(Decimal(n)) == n
  {
    ShortDecimal(n);
    ShortDecimalValue(Decimal(n));
  }

  /** Every octet of the pattern is the numeral of its own value. */
  lemma OctetCanonical(p: string)
    requires OctetPattern(p)
    ensures AllDigits(p) && DecimalValue(p) <= 255 && Decimal(DecimalValue(p)) == p
  {
    OctetMeaning(p);
    DecimalOfValue(p);
  }

  /** The dotted-quad text of four numbers. */
  function Dotted(a: nat, b: nat, c: nat, d: nat): string {
    Join([Decimal(a), Decimal(b), Decimal(c), Decimal(d)], '.')
  }

  /** The dotted quad of four numbers 0..255 passes `is_ipv4`. */
  lemma {:induction false} DottedIsIPv4(a: nat, b: nat, c: nat, d: nat)
    requires a <= 255 && b <= 255 && c <= 255 && d <= 255
    ensures IsIPv4(Dotted(a, b, c, d))
  {
    var parts := [Decimal(a), Decimal(b), Decimal(c), Decimal(d)];
    DecimalOctet(a);
    DecimalOctet(b);
    DecimalOctet(c);
    DecimalOctet(d);
    forall p | p in parts
      ensures '.' !in p
    {
      assert AllDigits(p);
    }
    JoinSplit(parts, '.');
    assert Split(Dotted(a, b, c, d), '.') == parts;
  }

  /** Without a newline, whatever passes `is_ipv4` is the dotted quad of four numbers 0..255. */
  lemma {:induction false} IPv4IsDotted(s: string)
    requires '\n' !in s && IsIPv4(s)
    ensures exists a: nat, b: nat, c: nat, d: nat ::
      a <= 255 && b <= 255 && c <= 255 && d <= 255 && s == Dotted(a, b, c, d)
  {
    var parts := Split(s, '.');
    assert DottedQuad(s);
    OctetCanonical(parts[0]);
    OctetCanonical(parts[1]);
    OctetCanonical(parts[2]);
    OctetCanonical(parts[3]);
    SplitJoin(s, '.');
    assert parts == [parts[0], parts[1], parts[2], parts[3]];
    var a, b, c, d := DecimalValue(parts[0]), DecimalValue(parts[1]), DecimalValue(parts[2]), DecimalValue(parts[3]);
    assert s == Dotted(a, b, c, d);
  }

  // ---------------------------------------------------------------------------
  // The descriptor protocol

  /** The attribute dictionary `instance.__dict__` of an object whose class declares validating fields. */
  class Instance {
    var attrs: map<string, Value>

    constructor ()
      ensures attrs == map[]
    {
      attrs := map[];
    }

    /** `__get__` on an instance: the stored value, or None when the field was never set. */
    function Get(name: string): (v: Value)
      reads this
      ensures name in attrs ==> v == attrs[name]
      ensures name !in attrs ==> v == VNone
    {
      if name in attrs then attrs[name] else VNone
    }

    /** `__set__`: validate first, store only when validation returned normally. */
    method Set(f: Field, name: string, v: Value) returns (r: Outcome)
      modifies this
      ensures r == Validate(f, v)
      ensures r.Returned? ==> attrs == old(attrs)[name := v] && Get(name) == v
      ensures r.Raised? ==> attrs == old(attrs) && Get(name) == old(Get(name))
    {
      r := Validate(f, v);
      if r.Returned? {
        attrs := attrs[name := v];
      }
    }
  }

  // ---------------------------------------------------------------------------
  // MailHost credentials

  /** `username = CharField(1)` and `password = CharField(1)`. */
  const CredentialField: Field := NewCharField(Some(1), None)

  /** Credentials `MailHost.__init__` accepts: two strings, each with a non-space character. */
  predicate CredentialsOk(username: Value, password: Value) {
    && username.VStr? && |Strip(username.s)| >= 1
    && password.VStr? && |Strip(password.s)| >= 1
  }

  /** `MailHost.__init__`: refuse None for either credential, then store both through their
      validating fields; the first refusal raises ValueError. */
  method InitMailHost(host: Instance, username: Value, password: Value) returns (r: Outcome)
    modifies host
    ensures r.Returned? <==> CredentialsOk(username, password)
    ensures r.Raised? ==> r.error == ValueError
    ensures r.Returned? ==> host.attrs == old(host.attrs)["username" := username]["password" := password]
  {
    if username == VNone || password == VNone {
      return Raised(ValueError);
    }
    r := host.Set(CredentialField, "username", username);
    if r.Raised? {
      return;
    }
    r := host.Set(CredentialField, "password", password);
  }

  /** None, integers, the empty string and blank strings are refused as credentials. */
  lemma {:induction false} BadCredentialsRejected(bad: Value, other: Value)
    requires bad == VNone || bad.VInt? || (bad.VStr? && forall k :: 0 <= k < |bad.s| ==> IsSpace(bad.s[k]))
    ensures !CredentialsOk(bad, other) && !CredentialsOk(other, bad)
  {
    if bad.VStr? {
      StripBlank(bad.s);
    }
  }
}
