/** JavaScript values and objects as the services see them, and the few string
    operations the services use (startsWith, split, SQL LIKE '%t%'). */
module Js {

  datatype Option<T> = None | Some(value: T)

  /** A value or the error an `async` function throws. */
  datatype Result<T, E> = Ok(value: T) | Err(error: E)

  /** A JavaScript value. Numbers are kept as reals: the services never do
      arithmetic on them, they only store, compare and test them. `Date`
      is a timestamp in milliseconds. */
  datatype Value =
    | Undefined
    | Null
    | Bool(b: bool)
    | Num(n: real)
    | Str(s: string)
    | Date(ms: int)

  /** A property or column name. The names the services mention have their
      own constructor, named after the column (`CustomerId` for `customer_id`,
      `RefreshToken` for `refreshToken`); `Other(name)` stands for any other
      name. */
  datatype Key =
    | Id
    | CustomerId | FullName | PhoneNumber | Email | Password | Address | Role
    | RefreshToken | RefreshTokenExpires
    | ProductId | Name | Description | Price | Category | ProductImg
    | OrderItemId | OrderDate | PaymentMethod | Quantity | TotalPrice | Status | ProductName
    | Other(name: string)

  /** A plain JavaScript object (own enumerable properties; order is not modelled). */
  type Object = map<Key, Value>

  /** `o.k`: a missing property reads as `undefined`. */
  function Get(o: Object, k: Key): Value
  {
    if k in o then o[k] else Undefined
  }

  /** JavaScript truthiness (`if (v)`, `!v`, `v || w`). */
  predicate Truthy(v: Value)
  {
    match v
    case Undefined => false
    case Null => false
    case Bool(b) => b
    case Num(n) => n != 0.0
    case Str(s) => s != ""
    case Date(_) => true
  }

  /** The object literal `{ k1: o.k1, ..., kn: o.kn }`: every key is present,
      possibly with the value `undefined`. */
  function Pick(o: Object, keys: set<Key>): (r: Object)
    ensures r.Keys == keys
    ensures forall k :: Get(r, k) == if k in keys then Get(o, k) else Undefined
  {
    map k | k in keys :: Get(o, k)
  }

  /** `String.prototype.startsWith`. */
  /** `c.length` of a one-character string: a character outside the Basic
      Multilingual Plane is a surrogate pair, two UTF-16 code units. */
  function CodeUnits(c: char): nat
  {
    if c as int < 0x1_0000 then 1 else 2
  }

  /** `s.length`, which counts UTF-16 code units rather than characters. */
  function Length(s: string): (n: nat)
    ensures |s| <= n <= 2 * |s|
    ensures n == 0 <==> s == ""
  {
    if s == "" then 0 else CodeUnits(s[0]) + Length(s[1..])
  }

  /** Text within the Basic Multilingual Plane has one code unit per character. */
  lemma {:induction false} LengthBmp(s: string)
    requires forall i :: 0 <= i < |s| ==> s[i] as int < 0x1_0000
    ensures Length(s) == |s|
  {
    if s != "" {
      LengthBmp(s[1..]);
    }
  }

  /** Each character outside the Basic Multilingual Plane adds one to the length. */
  lemma {:induction false} LengthAstral(s: string)
    requires forall i :: 0 <= i < |s| ==> s[i] as int >= 0x1_0000
    ensures Length(s) == 2 * |s|
  {
    if s != "" {
      LengthAstral(s[1..]);
    }
  }

  predicate StartsWith(s: string, prefix: string)
  {
    |prefix| <= |s| && s[..|prefix|] == prefix
  }

  /** `startsWith` called on a value: only strings can match. */
  predicate ValueStartsWith(v: Value, prefix: string)
  {
    v.Str? && StartsWith(v.s, prefix)
  }

  /** `t` occurs in `s` as a contiguous substring (what `s LIKE '%t%'` tests). */
  predicate Contains(s: string, t: string)
    decreases |s|
  {
    StartsWith(s, t) || (|s| > 0 && Contains(s[1..], t))
  }

  lemma {:induction false} ContainsAt(s: string, t: string, i: nat)
    requires i + |t| <= |s| && s[i..i + |t|] == t
    ensures Contains(s, t)
    decreases i
  {
    if i == 0 {
      assert s[..|t|] == s[0..|t|];
    } else {
      assert s[1..][i - 1..i - 1 + |t|] == s[i..i + |t|];
      ContainsAt(s[1..], t, i - 1);
    }
  }

  lemma {:induction false} ContainsWitness(s: string, t: string) returns (i: nat)
    requires Contains(s, t)
    ensures i + |t| <= |s| && s[i..i + |t|] == t
    decreases |s|
  {
    if StartsWith(s, t) {
      i := 0;
      assert s[0..|t|] == s[..|t|];
    } else {
      var j := ContainsWitness(s[1..], t);
      i := j + 1;
      assert s[i..i + |t|] == s[1..][j..j + |t|];
    }
  }

  /** `s.split(sep)` for a one-character separator: the pieces between the
      occurrences of `sep`, so there is always at least one piece. */
  function Split(s: string, sep: char): (r: seq<string>)
    ensures |r| >= 1
    decreases |s|
  {
    if s == [] then [""]
    else if s[0] == sep then [""] + Split(s[1..], sep)
    else
      var rest := Split(s[1..], sep);
      [[s[0]] + rest[0]] + rest[1..]
  }

  /** `parts.join(sep)`. */
  function Join(parts: seq<string>, sep: char): string
    requires |parts| >= 1
    decreases |parts|
  {
    if |parts| == 1 then parts[0] else parts[0] + [sep] + Join(parts[1..], sep)
  }

  /** The longest prefix of `s` that holds no `sep`. */
  function UpTo(s: string, sep: char): (r: string)
    decreases |s|
  {
    if s == [] || s[0] == sep then [] else [s[0]] + UpTo(s[1..], sep)
  }

  /** Splitting and joining again gives back the string. */
  lemma {:induction false} JoinSplit(s: string, sep: char)
    ensures Join(Split(s, sep), sep) == s
    decreases |s|
  {
    if s != [] {
      var rest := Split(s[1..], sep);
      JoinSplit(s[1..], sep);
      if s[0] == sep {
        var parts := [""] + rest;
        assert parts[1..] == rest;
        assert Join(parts, sep) == "" + [sep] + Join(rest, sep);
        assert s == [sep] + s[1..];
      } else {
        JoinPrepend(s[0], rest, sep);
        assert s == [s[0]] + s[1..];
      }
    }
  }

  lemma JoinPrepend(c: char, parts: seq<string>, sep: char)
    requires |parts| >= 1
    ensures Join([[c] + parts[0]] + parts[1..], sep) == [c] + Join(parts, sep)
  {
    var q := [[c] + parts[0]] + parts[1..];
    assert q[0] == [c] + parts[0];
    assert q[1..] == parts[1..];
    if |parts| > 1 {
      assert Join(q, sep) == q[0] + [sep] + Join(q[1..], sep);
      assert Join(parts, sep) == parts[0] + [sep] + Join(parts[1..], sep);
    }
  }

  /** No piece of a split holds the separator, and the first piece is the text before the first separator. */
  lemma {:induction false} SplitPieces(s: string, sep: char)
    ensures forall i :: 0 <= i < |Split(s, sep)| ==> sep !in Split(s, sep)[i]
    ensures Split(s, sep)[0] == UpTo(s, sep)
    decreases |s|
  {
    if s != [] {
      SplitPieces(s[1..], sep);
    }
  }

  /** A piece followed by the separator splits off as the first field. */
  lemma {:induction false} SplitAfterPiece(w: string, sep: char, rest: string)
    requires sep !in w
    ensures Split(w + [sep] + rest, sep) == [w] + Split(rest, sep)
    decreases |w|
  {
    if w == [] {
      assert w + [sep] + rest == [sep] + rest;
    } else {
      assert (w + [sep] + rest)[1..] == w[1..] + [sep] + rest;
      SplitAfterPiece(w[1..], sep, rest);
      assert [w[0]] + w[1..] == w;
    }
  }
}
