/** String operations of the Kotlin standard library used by the app,
    on `string` = `seq<char>` with ASCII digits. */
module Text {
  import opened Nullable
  import opened Numeric

  predicate StartsWith(s: string, prefix: string)
  {
    |prefix| <= |s| && s[..|prefix|] == prefix
  }

  predicate EndsWith(s: string, suffix: string)
  {
    |suffix| <= |s| && s[|s| - |suffix|..] == suffix
  }

  /** `s.contains(sub)` */
  predicate Contains(s: string, sub: string)
  {
    exists i :: 0 <= i <= |s| - |sub| && OccursAt(s, sub, i)
  }

  predicate OccursAt(s: string, sub: string, i: int)
  {
    0 <= i <= |s| - |sub| && s[i..i + |sub|] == sub
  }

  /** `s.removePrefix(prefix)`: removes one occurrence at the front, if present. */
  function RemovePrefix(s: string, prefix: string): (r: string)
    ensures StartsWith(s, prefix) ==> prefix + r == s
    ensures !StartsWith(s, prefix) ==> r == s
  {
    if StartsWith(s, prefix) then s[|prefix|..] else s
  }

  predicate IsDigit(c: char)
  {
    '0' <= c <= '9'
  }

  predicate AllDigits(s: string)
  {
    forall i :: 0 <= i < |s| ==> IsDigit(s[i])
  }

  function DigitChar(d: nat): (c: char)
    requires d < 10
    ensures IsDigit(c) && c as int - '0' as int == d
  {
    (d + '0' as int) as char
  }

  /** The decimal value of a string of digits, read left to right. */
  function DigitsValue(s: string): nat
    requires AllDigits(s)
    decreases |s|
  {
    if |s| == 0 then 0 else DigitsValue(s[..|s| - 1]) * 10 + (s[|s| - 1] as int - '0' as int)
  }

  /** `n.toString()` for `n >= 0`: shortest decimal spelling. */
  function NatToString(n: nat): (r: string)
    ensures 1 <= |r| && AllDigits(r)
    ensures DigitsValue(r) == n
    ensures |r| > 1 ==> r[0] != '0'
    ensures n < 10 <==> |r| == 1
  {
    if n < 10 then [DigitChar(n)]
    else
      var p := NatToString(n / 10);
      var r := p + [DigitChar(n % 10)];
      assert r[..|r| - 1] == p;
      r
  }

  /** `n.toString()` for a Kotlin integer. */
  function IntToString(n: int): (r: string)
    ensures n >= 0 ==> r == NatToString(n)
    ensures n < 0 ==> r == "-" + NatToString(-n)
  {
    if n < 0 then "-" + NatToString(-n) else NatToString(n)
  }

  /** `s.toInt()` (Java `Integer.parseInt`): an optional `+` or `-`, then at
      least one digit, and a value that fits in an `Int`; `None` stands for
      the `NumberFormatException`. */
  function ParseInt(s: string): (r: Option<int>)
    ensures r.Some? ==> IsInt32(r.value)
    ensures |s| == 0 ==> r.None?
    ensures r.Some? && s[0] != '-' ==> r.value >= 0
    ensures r.Some? && s[0] == '-' ==> r.value <= 0
    ensures |s| > 0 && AllDigits(s) && DigitsValue(s) <= 0x7fff_ffff ==> r == Some(DigitsValue(s) as int)
    ensures |s| > 0 && s[0] != '-' && s[0] != '+' && !AllDigits(s) ==> r.None?
    ensures |s| > 0 && AllDigits(s) && DigitsValue(s) > IntMax ==> r.None?
    ensures |s| > 0 && s[0] == '+' ==>
              r == if |s| > 1 && AllDigits(s[1..]) && DigitsValue(s[1..]) <= IntMax
                   then Some(DigitsValue(s[1..]) as int) else None
    ensures |s| > 0 && s[0] == '-' ==>
              r == if |s| > 1 && AllDigits(s[1..]) && DigitsValue(s[1..]) <= -IntMin
                   then Some(-(DigitsValue(s[1..]) as int)) else None
  {
    if |s| == 0 then None
    else
      var signed := s[0] == '-' || s[0] == '+';
      var digits := if signed then s[1..] else s;
      if |digits| == 0 || !AllDigits(digits) then None
      else
        var v: int := if s[0] == '-' then -(DigitsValue(digits) as int) else DigitsValue(digits);
        if IsInt32(v) then Some(v) else None
  }

  /** `toString` and `toInt` are inverse on every `Int`. */
  lemma ParseIntRoundTrip(n: int)
    requires IsInt32(n)
    ensures ParseInt(IntToString(n)) == Some(n)
  {
    var s := IntToString(n);
    if n < 0 {
      assert s[1..] == NatToString(-n);
    } else {
      assert s[0] != '-' && s[0] != '+';
    }
  }

  /** `s.split(sep)` with a one-character delimiter: every piece, empty ones included. */
  function Split(s: string, sep: char): (parts: seq<string>)
    ensures |parts| >= 1
    ensures forall i :: 0 <= i < |parts| ==> sep !in parts[i]
    ensures Join(parts, sep) == s
    decreases |s|
  {
    if |s| == 0 then [""]
    else
      var rest := Split(s[1..], sep);
      if s[0] == sep then
        assert [s[0]] + s[1..] == s;
        [""] + rest
      else
        JoinConsChar(s[0], rest, sep);
        assert [s[0]] + s[1..] == s;
        [[s[0]] + rest[0]] + rest[1..]
  }

  /** The pieces with `sep` between consecutive ones. */
  function Join(parts: seq<string>, sep: char): string
    requires |parts| >= 1
  {
    if |parts| == 1 then parts[0] else parts[0] + [sep] + Join(parts[1..], sep)
  }

  lemma JoinConsChar(c: char, parts: seq<string>, sep: char)
    requires |parts| >= 1
    ensures Join([[c] + parts[0]] + parts[1..], sep) == [c] + Join(parts, sep)
  {
    var ps := [[c] + parts[0]] + parts[1..];
    if |parts| > 1 {
      assert ps[1..] == parts[1..];
    }
  }

  /** Splitting a string that starts with a delimiter-free piece. */
  lemma {:induction false} SplitFreePrefix(p: string, t: string, sep: char)
    requires sep !in p
    ensures Split(p + t, sep) == [p + Split(t, sep)[0]] + Split(t, sep)[1..]
    decreases |p|
  {
    var x := Split(t, sep);
    if |p| > 0 {
      var s := p + t;
      assert p[0] in p;
      assert s[0] == p[0] != sep && s[1..] == p[1..] + t;
      assert p == [p[0]] + p[1..];
      SplitFreePrefix(p[1..], t, sep);
      var rest := Split(s[1..], sep);
      assert rest == [p[1..] + x[0]] + x[1..];
      assert Split(s, sep) == [[s[0]] + rest[0]] + rest[1..];
      assert [p[0]] + (p[1..] + x[0]) == p + x[0];
    } else {
      assert p + t == t;
      assert p + x[0] == x[0];
      assert x == [x[0]] + x[1..];
    }
  }

  /** `Split` undoes `Join` on delimiter-free pieces. */
  lemma {:induction false} SplitJoin(parts: seq<string>, sep: char)
    requires |parts| >= 1
    requires forall i :: 0 <= i < |parts| ==> sep !in parts[i]
    ensures Split(Join(parts, sep), sep) == parts
    decreases |parts|
  {
    if |parts| == 1 {
      SplitFreePrefix(parts[0], "", sep);
      assert parts[0] + "" == parts[0];
    } else {
      var tail := Join(parts[1..], sep);
      SplitJoin(parts[1..], sep);
      assert Join(parts, sep) == parts[0] + ([sep] + tail);
      SplitFreePrefix(parts[0], [sep] + tail, sep);
      assert ([sep] + tail)[1..] == tail;
      var y := Split([sep] + tail, sep);
      assert y == [""] + parts[1..];
      assert y[0] == "" && y[1..] == parts[1..];
      assert parts[0] + y[0] == parts[0];
      assert parts == [parts[0]] + parts[1..];
    }
  }
}
