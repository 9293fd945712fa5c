/**
 * The slice of the Python runtime the tool relies on: the exceptions the core
 * raises, the values that end up in a record, and `str()` of those values.
 */
module Runtime {

  datatype Option<+T> = None | Some(value: T)

  /** The built-in exceptions the core lets escape. The tool defines no error types of its own. */
  datatype Error =
    | KeyError(key: string)   // a missing dictionary key (an unknown group, a missing epoch field)
    | ValueError              // `list.index` without a match, `int()` of a non-number
    | TypeError               // an operation applied to `None`

  datatype Result<+T> = Ok(value: T) | Err(error: Error) {
    predicate IsFailure() { Err? }

    function PropagateFailure<U>(): Result<U>
      requires Err?
    {
      Err(error)
    }

    function Extract(): T
      requires Ok?
    {
      value
    }
  }

  /** `m[k]`, which raises `KeyError` for a missing key. */
  function Get<V>(m: map<string, V>, key: string): Result<V>
  {
    if key in m then Ok(m[key]) else Err(KeyError(key))
  }

  /**
   * A list built element by element, each element a computation that may raise: every
   * value in order, or the error of the first computation that raised.
   */
  function AllOk<V>(rs: seq<Result<V>>): (r: Result<seq<V>>)
    ensures r.Ok? <==> forall k :: 0 <= k < |rs| ==> rs[k].Ok?
    ensures r.Ok? ==> |r.value| == |rs| && forall k :: 0 <= k < |rs| ==> r.value[k] == rs[k].value
    ensures r.Err? ==> exists j :: 0 <= j < |rs| && rs[j] == Err(r.error) && forall i :: 0 <= i < j ==> rs[i].Ok?
  {
    if rs == [] then Ok([])
    else if rs[0].Err? then Err(rs[0].error)
    else
      match AllOk(rs[1..])
      case Err(e) =>
        ghost var j :| 0 <= j < |rs[1..]| && rs[1..][j] == Err(e) && forall i :: 0 <= i < j ==> rs[1..][i].Ok?;
        assert rs[j + 1] == Err(e) && forall i :: 0 <= i < j + 1 ==> rs[i].Ok?;
        Err(e)
      case Ok(rest) => Ok([rs[0].value] + rest)
  }

  /** The computations fail first at `j`: the list fails with that error. */
  lemma AllOkFirstErr<V>(rs: seq<Result<V>>, j: nat)
    requires j < |rs| && rs[j].Err?
    requires forall i :: 0 <= i < j ==> rs[i].Ok?
    ensures AllOk(rs) == Err(rs[j].error)
  {
    var r := AllOk(rs);
    var j' :| 0 <= j' < |rs| && rs[j'] == Err(r.error) && forall i :: 0 <= i < j' ==> rs[i].Ok?;
    assert j' == j;
  }

  /** Every computation gave its value: the list is those values. */
  lemma AllOkValues<V>(rs: seq<Result<V>>, values: seq<V>)
    requires |values| == |rs|
    requires forall k :: 0 <= k < |rs| ==> rs[k] == Ok(values[k])
    ensures AllOk(rs) == Ok(values)
  {
    assert AllOk(rs).value == values;
  }

  /**
   * `[m[k] for k in keys]` evaluated left to right: every value in order, or the
   * `KeyError` of the first missing key.
   */
  function GetAll<V>(m: map<string, V>, keys: seq<string>): (r: Result<seq<V>>)
    ensures r.Ok? <==> forall k :: 0 <= k < |keys| ==> keys[k] in m
    ensures r.Ok? ==> |r.value| == |keys| &&
                      forall k :: 0 <= k < |keys| ==> keys[k] in m && r.value[k] == m[keys[k]]
    ensures r.Err? ==> exists j :: 0 <= j < |keys| && keys[j] !in m && r.error == KeyError(keys[j]) &&
                                   forall i :: 0 <= i < j ==> keys[i] in m
  {
    var lookups := seq(|keys|, k requires 0 <= k < |keys| => Get(m, keys[k]));
    var r := AllOk(lookups);
    assert forall k :: 0 <= k < |keys| ==> (lookups[k].Ok? <==> keys[k] in m);
    r
  }

  /**
   * A loop that looks the keys up one by one stops at the first missing key: its
   * `KeyError` is the one of `GetAll`.
   */
  lemma GetAllFirstMissing<V>(m: map<string, V>, keys: seq<string>, j: nat)
    requires j < |keys| && keys[j] !in m
    requires forall i :: 0 <= i < j ==> keys[i] in m
    ensures GetAll(m, keys) == Err(KeyError(keys[j]))
  {
    var r := GetAll(m, keys);
    var j' :| 0 <= j' < |keys| && keys[j'] !in m && r.error == KeyError(keys[j']) &&
              forall i :: 0 <= i < j' ==> keys[i] in m;
    assert j' == j;
  }

  /** A loop that found every key has built the list `GetAll` gives. */
  lemma GetAllFound<V>(m: map<string, V>, keys: seq<string>, values: seq<V>)
    requires |values| == |keys|
    requires forall k :: 0 <= k < |keys| ==> keys[k] in m && values[k] == m[keys[k]]
    ensures GetAll(m, keys) == Ok(values)
  {
    assert GetAll(m, keys).value == values;
  }

  /**
   * A value stored in a record. The iteration index is a Python `int`; everything read
   * from an epoch entry (flags, floats, parameter dictionaries) is kept opaque, together
   * with the text `str()` gives for it.
   */
  datatype Value = NatValue(n: nat) | Opaque(text: string)

  predicate IsDigit(c: char) { '0' <= c <= '9' }

  /** `str(n)` for a non-negative `int`: its decimal digits, most significant first. */
  function NatToDecimal(n: nat): (s: string)
    ensures |s| >= 1
    ensures forall k :: 0 <= k < |s| ==> IsDigit(s[k])
    ensures |s| > 1 ==> s[0] != '0'
    decreases n
  {
    if n < 10 then [('0' as int + n) as char]
    else NatToDecimal(n / 10) + [('0' as int + n % 10) as char]
  }

  /** Reads a string of decimal digits back as a number (the reading a store applies to the text). */
  function DecimalToNat(s: string): nat
    requires forall k :: 0 <= k < |s| ==> IsDigit(s[k])
  {
    if s == [] then 0
    else
      assert IsDigit(s[|s| - 1]);
      10 * DecimalToNat(s[..|s| - 1]) + (s[|s| - 1] as int - '0' as int)
  }

  /** The iteration number written as text is read back exactly. */
  lemma {:induction false} DecimalRoundTrip(n: nat)
    ensures DecimalToNat(NatToDecimal(n)) == n
    decreases n
  {
    var s := NatToDecimal(n);
    if n >= 10 {
      DecimalRoundTrip(n / 10);
      assert s[..|s| - 1] == NatToDecimal(n / 10);
    }
  }

  /** Python's `str(x)` of a record value. */
  function Str(v: Value): (s: string)
    ensures v.NatValue? ==> |s| >= 1 && '"' !in s && s[0] != ' ' && s[0] != '\n'
  {
    match v
    case NatValue(n) => NatToDecimal(n)
    case Opaque(t) => t
  }

  /** `str(x) for x in entry`, in order. */
  function Strs(entry: seq<Value>): (r: seq<string>)
    ensures |r| == |entry|
    ensures forall k :: 0 <= k < |entry| ==> r[k] == Str(entry[k])
  {
    if entry == [] then [] else [Str(entry[0])] + Strs(entry[1..])
  }
}
