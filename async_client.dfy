// The command-line helpers of src/client/async_client.cc: the settings the
// load-test client parses from its arguments, and the dummy payload it
// uploads. `argv` is the list of arguments after the program name.

module AsyncClient {
  import opened Wrappers

  const ConcurrencyDefault: int := 128
  const ChunksDefault: int := 100
  const ChunkSizeDefault: int := 9128

  /** The range of `int` (`stoi`) and of `long long` (`stoll`). */
  const IntMin: int := -0x8000_0000
  const IntMax: int := 0x7FFF_FFFF
  const LongMin: int := -0x8000_0000_0000_0000
  const LongMax: int := 0x7FFF_FFFF_FFFF_FFFF

  predicate IsDigit(c: char)
  {
    '0' <= c <= '9'
  }

  /** The characters `isspace` accepts in the C locale. */
  predicate IsSpace(c: char)
  {
    c == ' ' || c == '\t' || c == '\n' || c == '\U{000B}' || c == '\U{000C}' || c == '\r'
  }

  /** The first position at or after `i` whose character fails `p`. */
  function SkipWhile(s: string, i: nat, p: char -> bool): (r: nat)
    requires i <= |s|
    ensures i <= r <= |s|
    ensures forall k :: i <= k < r ==> p(s[k])
    ensures r < |s| ==> !p(s[r])
    decreases |s| - i
  {
    if i == |s| || !p(s[i]) then i else SkipWhile(s, i + 1, p)
  }

  /** The value of one decimal digit. */
  function DigitValue(c: char): (d: nat)
    requires IsDigit(c)
    ensures d < 10
  {
    c as int - '0' as int
  }

  /** The digit character for a value below ten. */
  function DigitChar(d: nat): (c: char)
    requires d < 10
    ensures IsDigit(c) && DigitValue(c) == d
  {
    ('0' as int + d) as char
  }

  /** The value of a run of decimal digits. */
  function DigitsValue(ds: string): nat
    requires forall k :: 0 <= k < |ds| ==> IsDigit(ds[k])
  {
    if ds == [] then 0
    else DigitsValue(ds[..|ds| - 1]) * 10 + DigitValue(ds[|ds| - 1])
  }

  /** `parseSingle`: optional leading white space, an optional sign, at
      least one digit, and nothing after the digits; a value outside
      `[lo, hi]` is out of range. Every failure is `None`. */
  function ParseSingle(value: string, lo: int, hi: int): (r: Option<int>)
    ensures r.Some? ==> lo <= r.value <= hi
    ensures r.Some? ==> value != [] && IsDigit(value[|value| - 1])
  {
    var start := SkipWhile(value, 0, IsSpace);
    var negative := start < |value| && value[start] == '-';
    var digitsFrom := if start < |value| && (value[start] == '-' || value[start] == '+') then start + 1 else start;
    var end := SkipWhile(value, digitsFrom, IsDigit);
    if end == digitsFrom then None
    else if end != |value| then None
    else
      assert forall k :: 0 <= k < end - digitsFrom ==> IsDigit(value[digitsFrom..end][k]) by {
        forall k | 0 <= k < end - digitsFrom
          ensures IsDigit(value[digitsFrom..end][k])
        {
          assert value[digitsFrom..end][k] == value[digitsFrom + k];
        }
      }
      var magnitude := DigitsValue(value[digitsFrom..end]);
      var n: int := if negative then 0 - magnitude else magnitude;
      if n < lo || n > hi then None else Some(n)
  }

  /** The decimal digits of `n`, most significant first. */
  function Digits(n: nat): (r: string)
    ensures |r| >= 1
    ensures forall k :: 0 <= k < |r| ==> IsDigit(r[k])
  {
    if n < 10 then [DigitChar(n)]
    else Digits(n / 10) + [DigitChar(n % 10)]
  }

  /** `std::to_string` on an integer. */
  function ShowInt(n: int): string
  {
    if n < 0 then "-" + Digits(-n) else Digits(n)
  }

  lemma {:induction false} DigitsRoundTrip(n: nat)
    ensures DigitsValue(Digits(n)) == n
  {
    var r := Digits(n);
    if n >= 10 {
      DigitsRoundTrip(n / 10);
      assert r[..|r| - 1] == Digits(n / 10);
    } else {
      assert r[..0] == [];
    }
  }

  /** Every number in range reads back from its decimal form. */
  lemma ParseShowRoundTrip(n: int, lo: int, hi: int)
    requires lo <= n <= hi
    ensures ParseSingle(ShowInt(n), lo, hi) == Some(n)
  {
    var s := ShowInt(n);
    var m := if n < 0 then -n else n;
    DigitsRoundTrip(m);
    var from := if n < 0 then 1 else 0;
    assert s[from..] == Digits(m);
    assert IsDigit(s[from]);
    assert !IsSpace(s[0]);
    assert SkipWhile(s, 0, IsSpace) == 0;
    assert s[0] == '-' <==> n < 0;
    assert SkipWhile(s, from, IsDigit) == |s| by {
      SkipAllDigits(s, from);
    }
    assert s[from..|s|] == Digits(m);
    assert DigitsValue(s[from..|s|]) == m;
  }

  lemma {:induction false} SkipAllDigits(s: string, i: nat)
    requires i <= |s| && forall k :: i <= k < |s| ==> IsDigit(s[k])
    ensures SkipWhile(s, i, IsDigit) == |s|
    decreases |s| - i
  {
    if i < |s| {
      SkipAllDigits(s, i + 1);
    }
  }

  /** Skipping from `i` stops at `j` when every character in between passes
      `p` and the one at `j`, if any, fails it. */
  lemma {:induction false} SkipOver(s: string, i: nat, j: nat, p: char -> bool)
    requires i <= j <= |s|
    requires forall k :: i <= k < j ==> p(s[k])
    requires j < |s| ==> !p(s[j])
    ensures SkipWhile(s, i, p) == j
    decreases j - i
  {
    if i < j {
      SkipOver(s, i + 1, j, p);
    }
  }

  /** The value `parseSingle` gives for leading white space `w`, a sign and
      the digits `ds`. */
  function SignedValue(sign: string, ds: string): int
    requires forall k :: 0 <= k < |ds| ==> IsDigit(ds[k])
  {
    if sign == "-" then 0 - DigitsValue(ds) else DigitsValue(ds)
  }

  /** Every text of the accepted form parses: white space, an optional `+`
      or `-`, then at least one digit (leading zeros allowed) reads as the
      signed value of the digits when it is in range, and fails otherwise. */
  lemma AcceptedForm(w: string, sign: string, ds: string, lo: int, hi: int)
    requires forall k :: 0 <= k < |w| ==> IsSpace(w[k])
    requires sign == "" || sign == "+" || sign == "-"
    requires ds != [] && forall k :: 0 <= k < |ds| ==> IsDigit(ds[k])
    ensures var v := SignedValue(sign, ds);
            ParseSingle(w + sign + ds, lo, hi) == if lo <= v <= hi then Some(v) else None
  {
    var s := w + sign + ds;
    AcceptedFormSkips(w, sign, ds);
    assert s[|w| + |sign|..|s|] == ds;
  }

  /** Where the two skips of `parseSingle` stop on a text of the accepted
      form: after the white space, and at the end. */
  lemma AcceptedFormSkips(w: string, sign: string, ds: string)
    requires forall k :: 0 <= k < |w| ==> IsSpace(w[k])
    requires sign == "" || sign == "+" || sign == "-"
    requires ds != [] && forall k :: 0 <= k < |ds| ==> IsDigit(ds[k])
    ensures var s := w + sign + ds;
            && SkipWhile(s, 0, IsSpace) == |w|
            && s[|w|] == (if sign == "" then ds[0] else sign[0])
            && SkipWhile(s, |w| + |sign|, IsDigit) == |s|
  {
    var s := w + sign + ds;
    var from := |w| + |sign|;
    assert s[|w|] == (if sign == "" then ds[0] else sign[0]);
    SkipOver(s, 0, |w|, IsSpace);
    assert forall k :: from <= k < |s| ==> s[k] == ds[k - from];
    SkipOver(s, from, |s|, IsDigit);
  }

  /** Conversely, every text `parseSingle` accepts has that form, and its
      result is the signed value of its digits. */
  lemma AcceptedOnlyForm(s: string, lo: int, hi: int)
    requires ParseSingle(s, lo, hi).Some?
    ensures exists i, j ::
              && 0 <= i <= j < |s|
              && (forall k :: 0 <= k < i ==> IsSpace(s[k]))
              && (j == i || (j == i + 1 && (s[i] == '+' || s[i] == '-')))
              && (forall k :: j <= k < |s| ==> IsDigit(s[k]))
              && ParseSingle(s, lo, hi).value == SignedValue(s[i..j], s[j..])
  {
    var i := SkipWhile(s, 0, IsSpace);
    var negative := i < |s| && s[i] == '-';
    var j := if i < |s| && (s[i] == '-' || s[i] == '+') then i + 1 else i;
    var end := SkipWhile(s, j, IsDigit);
    assert end == |s| && j < end;
    assert s[j..end] == s[j..];
    assert s[i..j] == "-" <==> negative;
  }

  /** A number followed by anything that is not a digit is rejected. */
  lemma TrailingRejected(value: string, c: char, lo: int, hi: int)
    requires ParseSingle(value, lo, hi).Some? && !IsDigit(c)
    ensures ParseSingle(value + [c], lo, hi) == None
  {
    var s := value + [c];
    var start := SkipWhile(value, 0, IsSpace);
    var from := if start < |value| && (value[start] == '-' || value[start] == '+') then start + 1 else start;
    assert SkipWhile(value, from, IsDigit) == |value|;
    SkipPrefix(value, [c], 0, IsSpace);
    SkipPrefix(value, [c], from, IsDigit);
    assert SkipWhile(s, from, IsDigit) == |value|;
  }

  /** Extending a string past the point where skipping stopped does not
      change where it stops, when it stopped before the end. */
  lemma {:induction false} SkipPrefix(s: string, t: string, i: nat, p: char -> bool)
    requires i <= |s| && (SkipWhile(s, i, p) < |s| || (t != [] && !p(t[0])))
    ensures SkipWhile(s + t, i, p) == SkipWhile(s, i, p)
    decreases |s| - i
  {
    if i < |s| && p(s[i]) {
      assert (s + t)[i] == s[i];
      SkipPrefix(s, t, i + 1, p);
    } else if i < |s| {
      assert (s + t)[i] == s[i];
    } else {
      assert (s + t)[i] == t[0];
    }
  }

  function HasPrefix(s: string, prefix: string): bool
  {
    |prefix| <= |s| && s[..|prefix|] == prefix
  }

  /** The three settings `parseArgs` updates. */
  datatype Settings = Settings(concurrency: int, chunks: int, chunkSize: int)

  const Defaults := Settings(ConcurrencyDefault, ChunksDefault, ChunkSizeDefault)

  /** One argument: a known option assigns its parsed value, then fails if
      the value is not positive; an option whose value does not parse, and
      any other argument, fail without assigning. */
  function ApplyOne(s: Settings, arg: string): (r: (Settings, bool))
    ensures !HasPrefix(arg, "--concurrency=") && !HasPrefix(arg, "--chunks=") && !HasPrefix(arg, "--chunk_size=")
            ==> r == (s, false)
    ensures r.1 ==> || (r.0 == s.(concurrency := r.0.concurrency) && 0 < r.0.concurrency <= IntMax)
                    || (r.0 == s.(chunks := r.0.chunks) && 0 < r.0.chunks <= IntMax)
                    || (r.0 == s.(chunkSize := r.0.chunkSize) && 0 < r.0.chunkSize <= LongMax)
  {
    if HasPrefix(arg, "--concurrency=") then
      match ParseSingle(arg[|"--concurrency="|..], IntMin, IntMax)
      case None => (s, false)
      case Some(v) => (s.(concurrency := v), v > 0)
    else if HasPrefix(arg, "--chunks=") then
      match ParseSingle(arg[|"--chunks="|..], IntMin, IntMax)
      case None => (s, false)
      case Some(v) => (s.(chunks := v), v > 0)
    else if HasPrefix(arg, "--chunk_size=") then
      match ParseSingle(arg[|"--chunk_size="|..], LongMin, LongMax)
      case None => (s, false)
      case Some(v) => (s.(chunkSize := v), v > 0)
    else (s, false)
  }

  /** The arguments in order, stopping at the first that fails. */
  function ApplyArgs(s: Settings, args: seq<string>): (r: (Settings, bool))
    ensures r.1 && s.concurrency > 0 && s.chunks > 0 && s.chunkSize > 0
            ==> r.0.concurrency > 0 && r.0.chunks > 0 && r.0.chunkSize > 0
    decreases |args|
  {
    if args == [] then (s, true)
    else
      var (next, ok) := ApplyOne(s, args[0]);
      if !ok then (next, false) else ApplyArgs(next, args[1..])
  }

  /** An argument `parseArgs` accepts, whatever came before it. */
  predicate ValidArg(arg: string)
  {
    ApplyOne(Defaults, arg).1
  }

  lemma ValidArgAnywhere(s: Settings, arg: string)
    ensures ApplyOne(s, arg).1 == ValidArg(arg)
  {
  }

  /** `parseArgs` succeeds exactly when every argument is a known option
      with a positive value. */
  lemma {:induction false} OkIffAllValid(s: Settings, args: seq<string>)
    ensures ApplyArgs(s, args).1 <==> forall i :: 0 <= i < |args| ==> ValidArg(args[i])
    decreases |args|
  {
    if args != [] {
      ValidArgAnywhere(s, args[0]);
      var next := ApplyOne(s, args[0]).0;
      OkIffAllValid(next, args[1..]);
      assert forall i :: 1 <= i < |args| ==> args[i] == args[1..][i - 1];
    }
  }

  /** With no arguments the defaults stay 128, 100 and 9128. */
  lemma NoArgsKeepDefaults()
    ensures ApplyArgs(Defaults, []) == (Settings(128, 100, 9128), true)
  {
  }

  /** Processing one more argument after a list. */
  lemma {:induction false} ApplyArgsSnoc(s: Settings, args: seq<string>, arg: string)
    ensures ApplyArgs(s, args + [arg])
         == if ApplyArgs(s, args).1 then ApplyOne(ApplyArgs(s, args).0, arg) else ApplyArgs(s, args)
    decreases |args|
  {
    if args == [] {
      assert [] + [arg] == [arg];
    } else {
      assert (args + [arg])[0] == args[0] && (args + [arg])[1..] == args[1..] + [arg];
      var next := ApplyOne(s, args[0]).0;
      ApplyArgsSnoc(next, args[1..], arg);
    }
  }

  /** The value an argument assigns to the setting named by `prefix`, or
      `d` when it assigns none. */
  function Assigned(arg: string, prefix: string, lo: int, hi: int, d: int): int
  {
    if HasPrefix(arg, prefix) && ParseSingle(arg[|prefix|..], lo, hi).Some?
    then ParseSingle(arg[|prefix|..], lo, hi).value
    else d
  }

  /** The value the last argument with `prefix` sets, or `d` if none does. */
  function LastValue(args: seq<string>, prefix: string, lo: int, hi: int, d: int): int
    decreases |args|
  {
    if args == [] then d
    else Assigned(args[|args| - 1], prefix, lo, hi, LastValue(args[..|args| - 1], prefix, lo, hi, d))
  }

  /** No argument starts with two of the option names. */
  lemma PrefixesExclusive(arg: string)
    ensures HasPrefix(arg, "--concurrency=") ==> !HasPrefix(arg, "--chunks=") && !HasPrefix(arg, "--chunk_size=")
    ensures HasPrefix(arg, "--chunks=") ==> !HasPrefix(arg, "--chunk_size=")
  {
    if HasPrefix(arg, "--concurrency=") {
      assert arg[3] == "--concurrency="[3];
    }
    if HasPrefix(arg, "--chunks=") {
      assert arg[7] == "--chunks="[7];
    }
  }

  /** An accepted argument sets each setting to what it assigns to it. */
  lemma AcceptedArgument(t: Settings, arg: string)
    requires ApplyOne(t, arg).1
    ensures ApplyOne(t, arg).0 == Settings(
      Assigned(arg, "--concurrency=", IntMin, IntMax, t.concurrency),
      Assigned(arg, "--chunks=", IntMin, IntMax, t.chunks),
      Assigned(arg, "--chunk_size=", LongMin, LongMax, t.chunkSize))
  {
    PrefixesExclusive(arg);
  }

  /** When `parseArgs` succeeds, each setting holds the value of the last
      argument for it, or its value before if there is none: a later
      occurrence overrides an earlier one. */
  lemma {:induction false} LastOccurrenceWins(s: Settings, args: seq<string>)
    requires ApplyArgs(s, args).1
    ensures ApplyArgs(s, args).0 == Settings(
      LastValue(args, "--concurrency=", IntMin, IntMax, s.concurrency),
      LastValue(args, "--chunks=", IntMin, IntMax, s.chunks),
      LastValue(args, "--chunk_size=", LongMin, LongMax, s.chunkSize))
    decreases |args|
  {
    if args != [] {
      var init := args[..|args| - 1];
      var arg := args[|args| - 1];
      assert args == init + [arg];
      ApplyArgsSnoc(s, init, arg);
      assert ApplyArgs(s, init).1;
      LastOccurrenceWins(s, init);
      AcceptedArgument(ApplyArgs(s, init).0, arg);
    }
  }

  /** The argument settings the client keeps in its globals. */
  class ClientSettings {
    var concurrency: int
    var chunks: int
    var chunkSize: int

    function View(): Settings
      reads this
    {
      Settings(concurrency, chunks, chunkSize)
    }

    constructor ()
      ensures View() == Defaults
    {
      concurrency, chunks, chunkSize := ConcurrencyDefault, ChunksDefault, ChunkSizeDefault;
    }

    /** `parseArgs`: the arguments are applied in order; the first that
        fails ends the loop with false, keeping whatever it assigned. */
    method ParseArgs(args: seq<string>) returns (ok: bool)
      modifies this
      ensures (View(), ok) == ApplyArgs(old(View()), args)
    {
      ghost var start := View();
      var i := 0;
      while i < |args|
        invariant 0 <= i <= |args|
        invariant ApplyArgs(start, args[..i]) == (View(), true)
      {
        ApplyArgsSnoc(start, args[..i], args[i]);
        assert args[..i + 1] == args[..i] + [args[i]];
        var accepted := ParseArg(args[i]);
        if !accepted {
          PrefixFails(start, args, i);
          return false;
        }
        i := i + 1;
      }
      assert args[..i] == args;
      return true;
    }

    /** The body of the `parseArgs` loop for one argument: the option it
        names is parsed and assigned, then checked to be positive. */
    method ParseArg(arg: string) returns (ok: bool)
      modifies this
      ensures (View(), ok) == ApplyOne(old(View()), arg)
    {
      if HasPrefix(arg, "--concurrency=") {
        var parsed := ParseSingle(arg[|"--concurrency="|..], IntMin, IntMax);
        if parsed == None {
          return false;
        }
        concurrency := parsed.value;
        ok := concurrency > 0;
      } else if HasPrefix(arg, "--chunks=") {
        var parsed := ParseSingle(arg[|"--chunks="|..], IntMin, IntMax);
        if parsed == None {
          return false;
        }
        chunks := parsed.value;
        ok := chunks > 0;
      } else if HasPrefix(arg, "--chunk_size=") {
        var parsed := ParseSingle(arg[|"--chunk_size="|..], LongMin, LongMax);
        if parsed == None {
          return false;
        }
        chunkSize := parsed.value;
        ok := chunkSize > 0;
      } else {
        ok := false;
      }
    }
  }

  /** Once an argument fails, the arguments after it are never looked at. */
  lemma {:induction false} PrefixFails(s: Settings, args: seq<string>, i: nat)
    requires i < |args| && !ApplyArgs(s, args[..i + 1]).1
    ensures ApplyArgs(s, args) == ApplyArgs(s, args[..i + 1])
    decreases |args| - i
  {
    if i + 1 < |args| {
      ApplyArgsSnoc(s, args[..i + 1], args[i + 1]);
      assert args[..i + 2] == args[..i + 1] + [args[i + 1]];
      PrefixFails(s, args, i + 1);
    } else {
      assert args[..i + 1] == args;
    }
  }

  /** The 62-character pattern the payload repeats. */
  const Pattern: string := "0123456789ABCDEFGHIJKLMNOPQRSTUVWXYZabcdefghijklmnopqrstuvwxyz"

  /** `generate_dummy_data`: a string of `size` characters, filled by
      copying the pattern (or its first part, at the end) over and over;
      character `i` is the pattern's character `i mod 62`. */
  method GenerateDummyData(size: nat) returns (r: string)
    ensures |r| == size
    ensures forall i :: 0 <= i < size ==> r[i] == Pattern[i % 62]
  {
    var s := new char[size];
    var patternLen := |Pattern|;
    var offset := 0;
    while offset < size
      invariant 0 <= offset <= size
      invariant offset < size ==> offset % 62 == 0
      invariant forall i :: 0 <= i < offset ==> s[i] == Pattern[i % 62]
    {
      var copyLen := if patternLen < size - offset then patternLen else size - offset;
      CopyPattern(s, offset, copyLen);
      forall i | offset <= i < offset + copyLen
        ensures s[i] == Pattern[i % 62]
      {
        ModShift(i, offset);
      }
      offset := offset + copyLen;
    }
    r := s[..];
  }

  /** The `memcpy` of the first `len` pattern characters to `offset`. */
  method CopyPattern(s: array<char>, offset: nat, len: nat)
    requires len <= |Pattern| && offset + len <= s.Length
    modifies s
    ensures forall i :: offset <= i < offset + len ==> s[i] == Pattern[i - offset]
    ensures forall i :: 0 <= i < s.Length && !(offset <= i < offset + len) ==> s[i] == old(s[i])
  {
    var k := 0;
    while k < len
      invariant 0 <= k <= len
      invariant forall i :: offset <= i < offset + k ==> s[i] == Pattern[i - offset]
      invariant forall i :: 0 <= i < s.Length && !(offset <= i < offset + k) ==> s[i] == old(s[i])
    {
      s[offset + k] := Pattern[k];
      k := k + 1;
    }
  }

  lemma ModShift(i: nat, offset: nat)
    requires offset % 62 == 0 && offset <= i < offset + 62
    ensures i % 62 == i - offset
  {
  }
}
