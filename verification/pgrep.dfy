/** Reading the process list `pgrep` prints: `response.split()` on the raw
    output bytes, then `int(pid)` on every token (py_modules/sunshine.py:96-101). */
module Pgrep {
  import opened Basics

  // ---------------------------------------------------------------------------
  // bytes.split() with no separator

  /** ASCII whitespace as `bytes.split()` sees it: space, tab, line feed,
      vertical tab, form feed, carriage return. */
  predicate IsSpace(b: byte) {
    b == 32 || 9 <= b <= 13
  }

  /** A token: a non-empty run of non-whitespace bytes. */
  predicate IsToken(t: seq<byte>) {
    |t| > 0 && forall i :: 0 <= i < |t| ==> !IsSpace(t[i])
  }

  /** Length of the leading run of non-whitespace bytes. */
  function TokenLength(s: seq<byte>): (n: nat)
    ensures n <= |s|
    ensures forall i :: 0 <= i < n ==> !IsSpace(s[i])
    ensures n < |s| ==> IsSpace(s[n])
  {
    if s == [] || IsSpace(s[0]) then 0 else 1 + TokenLength(s[1..])
  }

  /** `s.split()`: the maximal runs of non-whitespace bytes, in order. */
  function Split(s: seq<byte>): (ts: seq<seq<byte>>)
    ensures forall i :: 0 <= i < |ts| ==> IsToken(ts[i])
    ensures |ts| <= |s|
    decreases |s|
  {
    if s == [] then []
    else if IsSpace(s[0]) then Split(s[1..])
    else
      var n := TokenLength(s);
      [s[..n]] + Split(s[n..])
  }

  /** The bytes of `s` that are not whitespace. */
  function NonSpace(s: seq<byte>): seq<byte> {
    if s == [] then [] else (if IsSpace(s[0]) then [] else [s[0]]) + NonSpace(s[1..])
  }

  function Concat(ts: seq<seq<byte>>): seq<byte> {
    if ts == [] then [] else ts[0] + Concat(ts[1..])
  }

  lemma {:induction false} NonSpaceAppend(a: seq<byte>, b: seq<byte>)
    ensures NonSpace(a + b) == NonSpace(a) + NonSpace(b)
  {
    if a != [] {
      assert (a + b)[1..] == a[1..] + b;
      NonSpaceAppend(a[1..], b);
    } else {
      assert a + b == b;
    }
  }

  lemma {:induction false} NonSpaceOfToken(t: seq<byte>)
    requires forall i :: 0 <= i < |t| ==> !IsSpace(t[i])
    ensures NonSpace(t) == t
  {
    if t != [] {
      NonSpaceOfToken(t[1..]);
      assert [t[0]] + t[1..] == t;
    }
  }

  /** Splitting loses exactly the whitespace: the tokens, put back together,
      are the non-whitespace bytes of the input in their original order. */
  lemma {:induction false} SplitKeepsContent(s: seq<byte>)
    ensures Concat(Split(s)) == NonSpace(s)
    decreases |s|
  {
    if s != [] {
      if IsSpace(s[0]) {
        SplitKeepsContent(s[1..]);
      } else {
        var n := TokenLength(s);
        var ts := Split(s);
        assert ts[0] == s[..n] && ts[1..] == Split(s[n..]);
        SplitKeepsContent(s[n..]);
        assert s == s[..n] + s[n..];
        NonSpaceAppend(s[..n], s[n..]);
        NonSpaceOfToken(s[..n]);
      }
    }
  }

  /** Tokens each followed by one whitespace byte split back into themselves. */
  lemma {:induction false} SplitTerminated(t: seq<byte>, sep: byte, rest: seq<byte>)
    requires IsToken(t) && IsSpace(sep)
    ensures Split(t + [sep] + rest) == [t] + Split(rest)
  {
    var s := t + [sep] + rest;
    TokenLengthOf(t, [sep] + rest);
    assert s[..|t|] == t;
    assert s[|t|..] == [sep] + rest;
    assert Split([sep] + rest) == Split(rest) by {
      assert ([sep] + rest)[1..] == rest;
    }
  }

  /** A whole token has no whitespace to stop at. */
  lemma {:induction false} TokenLengthOfToken(t: seq<byte>)
    requires forall i :: 0 <= i < |t| ==> !IsSpace(t[i])
    ensures TokenLength(t) == |t|
  {
    if t != [] {
      TokenLengthOfToken(t[1..]);
    }
  }

  /** A lone token splits into itself. */
  lemma {:induction false} SplitToken(t: seq<byte>)
    requires IsToken(t)
    ensures Split(t) == [t]
  {
    TokenLengthOfToken(t);
    assert t[..|t|] == t && t[|t|..] == [];
  }

  /** A whitespace byte separates: what lies on either side splits on its
      own. With `Split([]) == []` and `SplitToken` this determines the split
      of every input, so the tokens are exactly the maximal runs of
      non-whitespace bytes. */
  lemma {:induction false} SplitAround(a: seq<byte>, sep: byte, b: seq<byte>)
    requires IsSpace(sep)
    ensures Split(a + [sep] + b) == Split(a) + Split(b)
    decreases |a|, 1
  {
    if a == [] {
      assert a + [sep] + b == [sep] + b;
      SplitSpaceHead(sep, b);
    } else if IsSpace(a[0]) {
      SplitAroundAfterSpace(a, sep, b);
    } else {
      SplitAroundAfterToken(a, sep, b);
    }
  }

  lemma {:induction false} SplitAroundAfterSpace(a: seq<byte>, sep: byte, b: seq<byte>)
    requires IsSpace(sep) && a != [] && IsSpace(a[0])
    ensures Split(a + [sep] + b) == Split(a) + Split(b)
    decreases |a|, 0
  {
    var tail := a[1..];
    assert a == [a[0]] + tail;
    assert a + [sep] + b == [a[0]] + (tail + [sep] + b);
    SplitSpaceHead(a[0], tail + [sep] + b);
    SplitSpaceHead(a[0], tail);
    SplitAround(tail, sep, b);
  }

  lemma {:induction false} SplitAroundAfterToken(a: seq<byte>, sep: byte, b: seq<byte>)
    requires IsSpace(sep) && a != [] && !IsSpace(a[0])
    ensures Split(a + [sep] + b) == Split(a) + Split(b)
    decreases |a|, 0
  {
    var n := TokenLength(a);
    if n == |a| {
      assert a[..n] == a;
      SplitAroundToken(a, sep, b);
    } else {
      var t, rest := a[..n], a[n..];
      var x := rest + [sep] + b;
      assert a == t + rest && a + [sep] + b == t + x;
      SplitAround(rest, sep, b);
      SplitAroundTokenThen(t, rest, x, Split(b));
    }
  }

  /** A token in front of two inputs that both start with whitespace adds
      the same first token to both splits. */
  lemma {:induction false} SplitAroundTokenThen(t: seq<byte>, rest: seq<byte>, x: seq<byte>, tail: seq<seq<byte>>)
    requires IsToken(t)
    requires rest != [] && IsSpace(rest[0]) && x != [] && IsSpace(x[0])
    requires Split(x) == Split(rest) + tail
    ensures Split(t + x) == Split(t + rest) + tail
  {
    SplitTokenHead(t, x);
    SplitTokenHead(t, rest);
  }

  lemma {:induction false} SplitAroundToken(t: seq<byte>, sep: byte, b: seq<byte>)
    requires IsSpace(sep) && IsToken(t)
    ensures Split(t + [sep] + b) == Split(t) + Split(b)
  {
    assert t + [sep] + b == t + ([sep] + b);
    SplitTokenHead(t, [sep] + b);
    SplitToken(t);
    SplitSpaceHead(sep, b);
  }

  lemma {:induction false} SplitSpaceHead(x: byte, s: seq<byte>)
    requires IsSpace(x)
    ensures Split([x] + s) == Split(s)
  {
    assert ([x] + s)[1..] == s;
  }

  /** A token ended by whitespace splits off first. */
  lemma {:induction false} SplitTokenHead(t: seq<byte>, rest: seq<byte>)
    requires IsToken(t) && rest != [] && IsSpace(rest[0])
    ensures Split(t + rest) == [t] + Split(rest)
  {
    TokenLengthOf(t, rest);
    var s := t + rest;
    assert s[..|t|] == t && s[|t|..] == rest;
  }

  lemma {:induction false} TokenLengthOf(t: seq<byte>, rest: seq<byte>)
    requires forall i :: 0 <= i < |t| ==> !IsSpace(t[i])
    requires rest != [] && IsSpace(rest[0])
    ensures TokenLength(t + rest) == |t|
  {
    if t != [] {
      assert (t + rest)[1..] == t[1..] + rest;
      TokenLengthOf(t[1..], rest);
    } else {
      assert t + rest == rest;
    }
  }

  // ---------------------------------------------------------------------------
  // int() on a token

  predicate IsDigit(b: byte) {
    '0' as int <= b <= '9' as int
  }

  const Underscore: byte := '_' as int
  const Minus: byte := '-' as int
  const Plus: byte := '+' as int
  const Zero: byte := '0' as int

  /** Position `i` of `t` lies strictly between two digits. */
  predicate BetweenDigits(t: seq<byte>, i: int) {
    0 < i < |t| - 1 && IsDigit(t[i - 1]) && IsDigit(t[i + 1])
  }

  /** Python's decimal integer syntax without the sign: digits, with single
      underscores allowed between two digits. */
  predicate IsNumeral(t: seq<byte>) {
    && |t| > 0
    && IsDigit(t[0])
    && IsDigit(t[|t| - 1])
    && forall i :: 0 <= i < |t| ==> IsDigit(t[i]) || (t[i] == Underscore && BetweenDigits(t, i))
  }

  /** The digits of a numeral with the underscores dropped. */
  function DigitsOf(t: seq<byte>): seq<byte> {
    if t == [] then [] else (if t[0] == Underscore then [] else [t[0]]) + DigitsOf(t[1..])
  }

  /** The value of a string of decimal digits, most significant first. */
  function Value(ds: seq<byte>): nat
    requires forall i :: 0 <= i < |ds| ==> IsDigit(ds[i])
  {
    if ds == [] then 0
    else
      assert IsDigit(ds[|ds| - 1]);
      var d: int := ds[|ds| - 1] as int - '0' as int;
      10 * Value(ds[..|ds| - 1]) + d
  }

  lemma {:induction false} DigitsOfDigitsOrUnderscores(t: seq<byte>)
    requires forall i :: 0 <= i < |t| ==> IsDigit(t[i]) || t[i] == Underscore
    ensures forall i :: 0 <= i < |DigitsOf(t)| ==> IsDigit(DigitsOf(t)[i])
  {
    if t != [] {
      DigitsOfDigitsOrUnderscores(t[1..]);
    }
  }

  /** Dropping the underscores of a numeral leaves only digits. */
  lemma DigitsOfNumeral(t: seq<byte>)
    requires IsNumeral(t)
    ensures forall i :: 0 <= i < |DigitsOf(t)| ==> IsDigit(DigitsOf(t)[i])
  {
    forall i | 0 <= i < |t|
      ensures IsDigit(t[i]) || t[i] == Underscore
    {
    }
    DigitsOfDigitsOrUnderscores(t);
  }

  /** The token without the one sign `int()` accepts in front of the digits. */
  function Unsigned(t: seq<byte>): seq<byte> {
    if |t| > 0 && (t[0] == Minus || t[0] == Plus) then t[1..] else t
  }

  /** CPython 3.11 and later refuse to convert a decimal string of more than
      this many digits (`sys.int_info.default_max_str_digits`); underscores
      are not counted. */
  const MaxStrDigits: nat := 4300

  /** `int(token)`; `None` is the `ValueError` Python raises: for anything
      that is not an optionally signed numeral, and for a numeral longer than
      the digit limit. */
  function ParseInt(t: seq<byte>): (r: Option<int>)
    ensures r.Some? <==> IsNumeral(Unsigned(t)) && |DigitsOf(Unsigned(t))| <= MaxStrDigits
    ensures r.Some? && r.value < 0 ==> t[0] == Minus
    ensures r.Some? && t[0] != Minus ==> r.value >= 0
  {
    var body := Unsigned(t);
    if IsNumeral(body) && |DigitsOf(body)| <= MaxStrDigits then
      DigitsOfNumeral(body);
      var v: int := Value(DigitsOf(body));
      Some(if t[0] == Minus then -v else v)
    else
      None
  }

  // ---------------------------------------------------------------------------
  // The value int() gives

  lemma {:induction false} DigitsOfAppend(a: seq<byte>, b: seq<byte>)
    ensures DigitsOf(a + b) == DigitsOf(a) + DigitsOf(b)
  {
    if a != [] {
      assert (a + b)[0] == a[0] && (a + b)[1..] == a[1..] + b;
      DigitsOfAppend(a[1..], b);
    } else {
      assert a + b == b;
    }
  }

  lemma {:induction false} ValueLeadingZero(ds: seq<byte>)
    requires forall i :: 0 <= i < |ds| ==> IsDigit(ds[i])
    ensures forall i :: 0 <= i < |[Zero] + ds| ==> IsDigit(([Zero] + ds)[i])
    ensures Value([Zero] + ds) == Value(ds)
  {
    if ds != [] {
      var init := ds[..|ds| - 1];
      ValueLeadingZero(init);
      assert ([Zero] + ds)[..|ds|] == [Zero] + init;
      assert ([Zero] + ds)[|ds|] == ds[|ds| - 1];
    }
  }

  /** A minus sign negates the value of an unsigned token. */
  lemma ParseMinus(ds: seq<byte>)
    requires ds == [] || (ds[0] != Minus && ds[0] != Plus)
    ensures ParseInt([Minus] + ds).Some? <==> ParseInt(ds).Some?
    ensures ParseInt(ds).Some? ==> ParseInt([Minus] + ds).value == -ParseInt(ds).value
  {
    assert ([Minus] + ds)[1..] == ds;
  }

  /** A plus sign changes nothing. */
  lemma ParsePlus(ds: seq<byte>)
    requires ds == [] || (ds[0] != Minus && ds[0] != Plus)
    ensures ParseInt([Plus] + ds) == ParseInt(ds)
  {
    assert ([Plus] + ds)[1..] == ds;
  }

  /** A leading zero changes nothing, as long as it does not take the token
      over the digit limit. */
  lemma ParseLeadingZero(ds: seq<byte>)
    requires IsNumeral(ds) && |DigitsOf(ds)| < MaxStrDigits
    ensures ParseInt([Zero] + ds) == ParseInt(ds)
  {
    var t := [Zero] + ds;
    assert t[1..] == ds;
    forall i | 0 <= i < |t|
      ensures IsDigit(t[i]) || (t[i] == Underscore && BetweenDigits(t, i))
    {
      if i > 0 {
        assert t[i] == ds[i - 1];
        if !IsDigit(t[i]) {
          assert BetweenDigits(ds, i - 1);
        }
      }
    }
    assert IsNumeral(t);
    assert DigitsOf(t) == [Zero] + DigitsOf(ds);
    DigitsOfNumeral(ds);
    ValueLeadingZero(DigitsOf(ds));
  }

  /** An underscore between two digits changes nothing. */
  lemma ParseUnderscore(a: seq<byte>, b: seq<byte>)
    requires IsNumeral(a) && IsNumeral(b)
    ensures ParseInt(a + [Underscore] + b) == ParseInt(a + b)
  {
    var joined, plain := a + [Underscore] + b, a + b;
    NumeralJoined(a, b);
    NumeralConcat(a, b);
    assert Unsigned(joined) == joined && Unsigned(plain) == plain;
    assert joined == a + ([Underscore] + b);
    DigitsOfAppend(a, [Underscore] + b);
    assert ([Underscore] + b)[1..] == b;
    DigitsOfAppend(a, b);
    assert DigitsOf(joined) == DigitsOf(plain);
    assert joined[0] == plain[0];
  }

  lemma NumeralJoined(a: seq<byte>, b: seq<byte>)
    requires IsNumeral(a) && IsNumeral(b)
    ensures IsNumeral(a + [Underscore] + b)
  {
    var t := a + [Underscore] + b;
    forall i | 0 <= i < |t|
      ensures IsDigit(t[i]) || (t[i] == Underscore && BetweenDigits(t, i))
    {
      if i < |a| {
        assert t[i] == a[i];
        if !IsDigit(t[i]) {
          assert BetweenDigits(a, i);
          assert t[i - 1] == a[i - 1] && t[i + 1] == a[i + 1];
        }
      } else if i == |a| {
        assert t[i - 1] == a[|a| - 1] && t[i + 1] == b[0];
      } else {
        var j := i - |a| - 1;
        assert t[i] == b[j];
        if !IsDigit(t[i]) {
          assert BetweenDigits(b, j);
          assert t[i - 1] == b[j - 1] && t[i + 1] == b[j + 1];
        }
      }
    }
  }

  lemma NumeralConcat(a: seq<byte>, b: seq<byte>)
    requires IsNumeral(a) && IsNumeral(b)
    ensures IsNumeral(a + b)
  {
    var t := a + b;
    forall i | 0 <= i < |t|
      ensures IsDigit(t[i]) || (t[i] == Underscore && BetweenDigits(t, i))
    {
      if i < |a| {
        assert t[i] == a[i];
        if !IsDigit(t[i]) {
          assert BetweenDigits(a, i);
          assert t[i - 1] == a[i - 1] && t[i + 1] == a[i + 1];
        }
      } else {
        var j := i - |a|;
        assert t[i] == b[j];
        if !IsDigit(t[i]) {
          assert BetweenDigits(b, j);
          assert t[i - 1] == b[j - 1] && t[i + 1] == b[j + 1];
        }
      }
    }
  }

  // ---------------------------------------------------------------------------
  // getPID

  /** Every token is something `int()` converts. */
  predicate AllNumbers(ts: seq<seq<byte>>) {
    forall i :: 0 <= i < |ts| ==> ParseInt(ts[i]).Some?
  }

  /** `[int(pid) for pid in tokens]`: every token is parsed, and one that is
      not a number makes the whole comprehension raise. */
  function ParseAll(ts: seq<seq<byte>>): (r: Option<seq<int>>)
    ensures r.Some? <==> AllNumbers(ts)
    ensures r.Some? ==> |r.value| == |ts|
    ensures r.Some? ==> forall i :: 0 <= i < |ts| ==> r.value[i] == ParseInt(ts[i]).value
  {
    if ts == [] then Some([])
    else match (ParseInt(ts[0]), ParseAll(ts[1..]))
      case (Some(v), Some(vs)) => Some([v] + vs)
      case (None, _) => None
      case (_, None) =>
        assert forall i :: 1 <= i < |ts| ==> ts[1..][i - 1] == ts[i];
        None
  }

  /** `getPID()` on what launching `pgrep` produced, `None` when the launch
      raised: the first number, `None` when there is none, and a fault when
      the launch failed or any token is not a number. */
  function GetPid(output: Option<seq<byte>>): (r: Outcome<Option<int>>)
    ensures output.None? ==> r.Fault?
    ensures output.Some? ==>
      var ts := Split(output.value);
      && (r.Fault? <==> !AllNumbers(ts))
      && (r == Done(None) <==> ts == [])
      && (r.Done? && r.value.Some? ==> r.value.value == ParseInt(ts[0]).value)
  {
    match output
    case None => Fault
    case Some(_) =>
      var ts := Split(output.value);
      match ParseAll(ts)
      case None => Fault
      case Some(pids) => Done(if |pids| > 0 then Some(pids[0]) else None)
  }

  /** `isRunning()`: the lookup found a process (py_modules/sunshine.py:140). */
  function IsRunning(output: Option<seq<byte>>): (r: Outcome<bool>)
    ensures r.Fault? <==> GetPid(output).Fault?
    ensures r == Done(true) <==> GetPid(output).Done? && GetPid(output).value.Some?
    ensures r == Done(false) <==> GetPid(output) == Done(None)
  {
    match GetPid(output)
    case Fault => Fault
    case Done(pid) => Done(pid.Some?)
  }

  // ---------------------------------------------------------------------------
  // What pgrep prints

  /** Decimal digits of `n`, most significant first, no leading zeros. */
  function Decimal(n: nat): (ds: seq<byte>)
    ensures |ds| > 0
    ensures forall i :: 0 <= i < |ds| ==> IsDigit(ds[i])
  {
    if n < 10 then ['0' as int + n] else Decimal(n / 10) + ['0' as int + n % 10]
  }

  /** One process id per line, as `pgrep` writes them. */
  function Listing(pids: seq<nat>): seq<byte> {
    if pids == [] then [] else Decimal(pids[0]) + [10] + Listing(pids[1..])
  }

  lemma {:induction false} ValueOfDecimal(n: nat)
    ensures Value(Decimal(n)) == n
  {
    if n >= 10 {
      var ds := Decimal(n);
      assert ds[..|ds| - 1] == Decimal(n / 10);
      ValueOfDecimal(n / 10);
    }
  }

  lemma {:induction false} DigitsOfDigits(ds: seq<byte>)
    requires forall i :: 0 <= i < |ds| ==> IsDigit(ds[i])
    ensures DigitsOf(ds) == ds
  {
    if ds != [] {
      DigitsOfDigits(ds[1..]);
      assert [ds[0]] + ds[1..] == ds;
    }
  }

  /** A process id short enough for `int()` to convert. */
  predicate Convertible(n: nat) {
    |Decimal(n)| <= MaxStrDigits
  }

  /** A printed id within the digit limit reads back as itself. */
  lemma ParseDecimal(n: nat)
    requires Convertible(n)
    ensures ParseInt(Decimal(n)) == Some(n)
  {
    var ds := Decimal(n);
    DigitsOfDigits(ds);
    ValueOfDecimal(n);
  }

  lemma {:induction false} SplitListing(pids: seq<nat>)
    ensures |Split(Listing(pids))| == |pids|
    ensures forall i :: 0 <= i < |pids| ==> Split(Listing(pids))[i] == Decimal(pids[i])
  {
    if pids != [] {
      SplitTerminated(Decimal(pids[0]), 10, Listing(pids[1..]));
      SplitListing(pids[1..]);
    }
  }

  /** On a listing of process ids, `getPID()` returns the first id, or `None`
      when the listing is empty. */
  lemma GetPidOfListing(pids: seq<nat>)
    requires forall i :: 0 <= i < |pids| ==> Convertible(pids[i])
    ensures GetPid(Some(Listing(pids))) == Done(if pids == [] then None else Some(pids[0]))
  {
    SplitListing(pids);
    var ts := Split(Listing(pids));
    forall i | 0 <= i < |ts|
      ensures ParseInt(ts[i]) == Some(pids[i])
    {
      ParseDecimal(pids[i]);
    }
    assert AllNumbers(ts);
  }
}
