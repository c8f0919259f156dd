/**
 * `update_config` (teamster.py:156-175): point the Teams client's
 * configuration at this server.  The stored configuration is merged with
 * three settings, right-biased as Python's `dict | dict` is, and the file is
 * rewritten only when the merged object differs, by Python's `==`, from what
 * was read.
 */
module TeamsConfig {
  import opened Wrappers

  /** A JSON value as `json.load` returns it; numbers keep the Python type they load as. */
  datatype Value =
    | Null
    | Bool(b: bool)
    | Int(i: int)
    | Float(r: real)
    | Str(s: string)
    | Array(items: seq<Value>)
    | Object(fields: map<string, Value>)

  predicate IsNumber(v: Value) {
    v.Bool? || v.Int? || v.Float?
  }

  /** The number a bool, int or float stands for in a comparison: True is 1 and False is 0. */
  function NumValue(v: Value): real
    requires IsNumber(v)
  {
    match v
    case Bool(b) => if b then 1.0 else 0.0
    case Int(i) => i as real
    case Float(r) => r
  }

  /**
   * Python's `==` on loaded JSON: bools, ints and floats compare as numbers,
   * strings by content, lists element by element, dicts key by key
   * regardless of order; values of different kinds are unequal.
   */
  predicate PyEq(a: Value, b: Value)
    decreases a
  {
    match a
    case Null => b.Null?
    case Bool(_) => IsNumber(b) && NumValue(a) == NumValue(b)
    case Int(_) => IsNumber(b) && NumValue(a) == NumValue(b)
    case Float(_) => IsNumber(b) && NumValue(a) == NumValue(b)
    case Str(s) => b.Str? && b.s == s
    case Array(xs) => b.Array? && |xs| == |b.items| && forall i :: 0 <= i < |xs| ==> PyEq(xs[i], b.items[i])
    case Object(m) => b.Object? && m.Keys == b.fields.Keys && forall k :: k in m ==> PyEq(m[k], b.fields[k])
  }

  /** Every loaded value equals itself (there is no NaN among them). */
  lemma {:induction false} PyEqReflexive(a: Value)
    ensures PyEq(a, a)
    decreases a
  {
    match a
    case Array(xs) =>
      forall i | 0 <= i < |xs| ensures PyEq(xs[i], xs[i]) {
        PyEqReflexive(xs[i]);
      }
    case Object(m) =>
      forall k | k in m ensures PyEq(m[k], m[k]) {
        PyEqReflexive(m[k]);
      }
    case _ =>
  }

  /** Python's `==` is symmetric on loaded values. */
  lemma {:induction false} PyEqSymmetric(a: Value, b: Value)
    ensures PyEq(a, b) ==> PyEq(b, a)
    decreases a
  {
    if PyEq(a, b) {
      match a
      case Array(xs) =>
        forall i | 0 <= i < |xs| ensures PyEq(b.items[i], xs[i]) {
          PyEqSymmetric(xs[i], b.items[i]);
        }
      case Object(m) =>
        forall k | k in b.fields ensures PyEq(b.fields[k], m[k]) {
          PyEqSymmetric(m[k], b.fields[k]);
        }
      case _ =>
    }
  }

  /** The characters '0' to '9'. */
  function DigitChar(d: nat): char
    requires d < 10
  {
    ('0' as int + d) as char
  }

  /** The decimal digits of `n`, most significant first. */
  function Digits(n: nat): string
    decreases n
  {
    if n < 10 then [DigitChar(n)] else Digits(n / 10) + [DigitChar(n % 10)]
  }

  /** `str(n)` for an int. */
  function Decimal(n: int): string {
    if n < 0 then "-" + Digits(-n) else Digits(n)
  }

  /** A digit string is never empty and holds only digits. */
  lemma {:induction false} DigitsAreDigits(n: nat)
    ensures |Digits(n)| > 0
    ensures forall i :: 0 <= i < |Digits(n)| ==> '0' <= Digits(n)[i] <= '9'
    ensures n >= 10 ==> |Digits(n)| >= 2
    decreases n
  {
    if n >= 10 {
      DigitsAreDigits(n / 10);
    }
  }

  /** Different numbers have different digits. */
  lemma {:induction false} DigitsInjective(a: nat, b: nat)
    ensures Digits(a) == Digits(b) ==> a == b
    decreases a
  {
    if Digits(a) == Digits(b) {
      DigitsAreDigits(a);
      DigitsAreDigits(b);
      var da, db := Digits(a), Digits(b);
      if a >= 10 && b >= 10 {
        assert da[|da| - 1] == db[|db| - 1];
        assert da[..|da| - 1] == Digits(a / 10);
        assert db[..|db| - 1] == Digits(b / 10);
        DigitsInjective(a / 10, b / 10);
      }
    }
  }

  /** A printed int starts with '-' exactly when it is negative. */
  lemma DecimalSign(n: int)
    ensures |Decimal(n)| > 0 && (Decimal(n)[0] == '-' <==> n < 0)
  {
    DigitsAreDigits(if n < 0 then -n else n);
  }

  /** Different ints print differently. */
  lemma DecimalInjective(a: int, b: int)
    ensures Decimal(a) == Decimal(b) ==> a == b
  {
    DecimalSign(a);
    DecimalSign(b);
    if Decimal(a) == Decimal(b) {
      if a < 0 && b < 0 {
        assert Decimal(a)[1..] == Digits(-a) && Decimal(b)[1..] == Digits(-b);
        DigitsInjective(-a, -b);
      } else if a >= 0 && b >= 0 {
        DigitsInjective(a, b);
      }
    }
  }

  const BASE_URL_KEY := "customBGServiceBaseUrl"
  const IGNORE_DEFAULTS_KEY := "customBGServiceIgnoreMSDefaults"
  const FETCH_INTERVAL_KEY := "customBGServiceConfigFetchInterval"
  const URL_PREFIX := "http://localhost:"

  /** The three configuration fields `update_config` reads. */
  datatype Settings = Settings(port: int, ignoreTeamsImages: bool, fetchInterval: int)

  /** `f"http://localhost:{config.port}"`. */
  function BaseUrl(port: int): string {
    URL_PREFIX + Decimal(port)
  }

  /** The three entries `update_config` puts into the Teams configuration. */
  function Overrides(s: Settings): map<string, Value> {
    map[
      BASE_URL_KEY := Str(BaseUrl(s.port)),
      IGNORE_DEFAULTS_KEY := Bool(s.ignoreTeamsImages),
      FETCH_INTERVAL_KEY := Int(s.fetchInterval)
    ]
  }

  /**
   * `teams_config | {...}`: every key of either side, the overrides' values
   * for their keys and the stored values for all others.
   */
  function Merge(stored: map<string, Value>, s: Settings): (r: map<string, Value>)
    ensures r.Keys == stored.Keys + Overrides(s).Keys
    ensures forall k :: k in Overrides(s) ==> r[k] == Overrides(s)[k]
    ensures forall k :: k in stored && k !in Overrides(s) ==> r[k] == stored[k]
  {
    stored + Overrides(s)
  }

  /** The merged configuration differs from the stored one. */
  predicate Changed(stored: map<string, Value>, s: Settings) {
    !PyEq(Object(Merge(stored, s)), Object(stored))
  }

  /**
   * The file is rewritten exactly when one of the three keys is missing or
   * holds a value that is not `==` to the one being set.
   */
  lemma ChangedIff(stored: map<string, Value>, s: Settings)
    ensures Changed(stored, s) <==>
      exists k :: k in Overrides(s) && (k !in stored || !PyEq(Overrides(s)[k], stored[k]))
  {
    var o, n := Overrides(s), Merge(stored, s);
    if exists k :: k in o && (k !in stored || !PyEq(o[k], stored[k])) {
      var k :| k in o && (k !in stored || !PyEq(o[k], stored[k]));
      if k in stored {
        assert !PyEq(n[k], stored[k]);
      }
    } else {
      forall k | k in n ensures PyEq(n[k], stored[k]) {
        if k !in o {
          PyEqReflexive(stored[k]);
        }
      }
    }
  }

  /** Merging a second time adds nothing and changes nothing. */
  lemma MergeIdempotent(stored: map<string, Value>, s: Settings)
    ensures Merge(Merge(stored, s), s) == Merge(stored, s)
    ensures !Changed(Merge(stored, s), s)
  {
    var n := Merge(stored, s);
    forall k | k in Overrides(s) ensures PyEq(Overrides(s)[k], n[k]) {
      PyEqReflexive(n[k]);
    }
    ChangedIff(n, s);
  }

  /** Without a stored configuration there is always something to write. */
  lemma EmptyAlwaysChanged(s: Settings)
    ensures Changed(map[], s)
  {
    assert BASE_URL_KEY in Merge(map[], s);
  }

  /** A changed port always forces a rewrite. */
  lemma PortChangeRewrites(stored: map<string, Value>, oldPort: int, s: Settings)
    requires BASE_URL_KEY in stored && stored[BASE_URL_KEY] == Str(BaseUrl(oldPort))
    requires s.port != oldPort
    ensures Changed(stored, s)
  {
    DecimalInjective(oldPort, s.port);
    assert BaseUrl(oldPort)[|URL_PREFIX|..] == Decimal(oldPort);
    assert BaseUrl(s.port)[|URL_PREFIX|..] == Decimal(s.port);
    ChangedIff(stored, s);
    assert !PyEq(Overrides(s)[BASE_URL_KEY], stored[BASE_URL_KEY]);
  }

  /**
   * Python's `True == 1` and `60 == 60.0`: a file that holds 1 where the
   * setting is true and 60.0 where it is 60 is left alone.
   */
  lemma NumericEqualityKeepsFile(stored: map<string, Value>, port: int)
    requires stored == map[
      BASE_URL_KEY := Str(BaseUrl(port)),
      IGNORE_DEFAULTS_KEY := Int(1),
      FETCH_INTERVAL_KEY := Float(60.0)
    ]
    ensures !Changed(stored, Settings(port, true, 60))
  {
    ChangedIff(stored, Settings(port, true, 60));
  }

  /** The Teams configuration file as `update_config` finds it. */
  datatype Stored =
    | Absent            // the file does not exist
    | Parsed(v: Value)  // `json.load` returns `v`
    | Malformed         // `json.load` raises

  datatype ConfigError =
    | InvalidJson   // json.JSONDecodeError from `json.load`
    | NotAnObject   // TypeError from `|` when the file holds anything but an object

  /** The configuration `update_config` starts from: `{}` when there is no file. */
  function Load(st: Stored): Result<map<string, Value>, ConfigError> {
    match st
    case Absent => Ok(map[])
    case Malformed => Err(InvalidJson)
    case Parsed(v) => if v.Object? then Ok(v.fields) else Err(NotAnObject)
  }

  /** The Teams client's configuration file, rewritten in place. */
  class TeamsConfigFile {
    var stored: Stored

    constructor (st: Stored)
      ensures stored == st
    {
      stored := st;
    }

    /**
     * `update_config`: returns whether the file was rewritten.  A file that
     * cannot be loaded or merged is left as it is and the error escapes.
     */
    method Update(s: Settings) returns (r: Result<bool, ConfigError>)
      modifies this
      ensures match Load(old(stored))
        case Err(e) => r == Err(e) && stored == old(stored)
        case Ok(m) =>
          && r == Ok(Changed(m, s))
          && stored == (if Changed(m, s) then Parsed(Object(Merge(m, s))) else old(stored))
    {
      var current: map<string, Value>;
      match stored {
        case Absent => current := map[];
        case Malformed => return Err(InvalidJson);
        case Parsed(v) =>
          if !v.Object? {
            return Err(NotAnObject);
          }
          current := v.fields;
      }
      var merged := current + Overrides(s);
      if !PyEq(Object(merged), Object(current)) {
        stored := Parsed(Object(merged));
        return Ok(true);
      }
      return Ok(false);
    }
  }

  /** Once `update_config` has succeeded, running it again with the same settings writes nothing. */
  lemma SecondUpdateWritesNothing(st: Stored, s: Settings)
    requires Load(st).Ok?
    ensures var m := Load(st).value;
      var after := if Changed(m, s) then Parsed(Object(Merge(m, s))) else st;
      Load(after).Ok? && !Changed(Load(after).value, s)
  {
    var m := Load(st).value;
    MergeIdempotent(m, s);
  }
}
