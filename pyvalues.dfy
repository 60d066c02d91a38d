/** The few Python run-time values the relay inspects with isinstance checks and
    truth tests, the exceptions it raises, and `list(filter(None, xs))`. */
module PyValues {

  /** A Python object, as far as the validators and the configuration code look at it. */
  datatype Value =
    | VNone
    | VBool(b: bool)
    | VInt(i: int)
    | VStr(s: string)
    | VList(items: seq<Value>)
    | VOther                      // a float or any other object that is not iterable

  /** The exception classes the modelled code raises or lets escape. */
  datatype PyError =
    | ValueError
    | TypeError
    | IndexError
    | KeyError
    | AttributeError
    | IntegrityError              // sqlite3.IntegrityError
    | OSError                     // a refused or unreachable connection
    | SmtpServerDisconnected      // smtplib.SMTPServerDisconnected

  /** How a call that returns None ends: it returns, or it raises. */
  datatype Outcome = Returned | Raised(error: PyError)

  /** Python's truth value: None, False, 0, "" and [] are false; every other object counts as true. */
  predicate Truthy(v: Value) {
    match v
    case VNone => false
    case VBool(b) => b
    case VInt(i) => i != 0
    case VStr(s) => s != ""
    case VList(items) => items != []
    case VOther => true
  }

  /** `list(filter(None, xs))`: the truthy elements of `xs`, in their original order. */
  function Compact(xs: seq<Value>): (r: seq<Value>)
    ensures |r| <= |xs|
    ensures forall v :: v in r ==> Truthy(v) && v in xs
    decreases |xs|
  {
    if xs == [] then []
    else
      var rest := Compact(xs[1..]);
      assert xs == [xs[0]] + xs[1..];
      if Truthy(xs[0]) then [xs[0]] + rest else rest
  }

  /** The filter drops only false entries: each truthy value is kept as often as it occurs. */
  lemma {:induction false} CompactCounts(xs: seq<Value>)
    ensures forall v :: Truthy(v) ==> multiset(Compact(xs))[v] == multiset(xs)[v]
    decreases |xs|
  {
    if xs != [] {
      CompactCounts(xs[1..]);
      assert xs == [xs[0]] + xs[1..];
    }
  }

  /** Filtering distributes over concatenation, so the surviving entries keep their relative order. */
  lemma {:induction false} CompactAppend(a: seq<Value>, b: seq<Value>)
    ensures Compact(a + b) == Compact(a) + Compact(b)
    decreases |a|
  {
    if a != [] {
      assert (a + b)[1..] == a[1..] + b;
      CompactAppend(a[1..], b);
    } else {
      assert a + b == b;
    }
  }

  /** A list without false entries passes the filter unchanged; in particular filtering twice changes nothing. */
  lemma {:induction false} CompactIdentity(xs: seq<Value>)
    requires forall v :: v in xs ==> Truthy(v)
    ensures Compact(xs) == xs
    decreases |xs|
  {
    if xs != [] {
      assert forall v :: v in xs[1..] ==> v in xs;
      CompactIdentity(xs[1..]);
      assert xs == [xs[0]] + xs[1..];
    }
  }
}
