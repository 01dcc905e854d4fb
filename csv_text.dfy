/**
 * The text operations the roster reader applies to each line: Java's
 * `String.trim`, `String.split(",", -1)`, `Long.parseLong` and the decimal
 * part of `Double.parseDouble`.
 */
module CsvText {
  import opened Wrappers

  /** `String.trim` removes every character at or below U+0020 from both ends. */
  predicate IsTrimmed(c: char) {
    c <= ' '
  }

  function TrimStart(s: string): (r: string)
    ensures |r| <= |s|
  {
    if s != [] && IsTrimmed(s[0]) then TrimStart(s[1..]) else s
  }

  function TrimEnd(s: string): (r: string)
    ensures |r| <= |s|
  {
    if s != [] && IsTrimmed(s[|s| - 1]) then TrimEnd(s[..|s| - 1]) else s
  }

  /** `String.trim`: the text between the leading and the trailing blanks. */
  function Trim(s: string): (r: string)
    ensures |r| <= |s|
    ensures r != [] ==> !IsTrimmed(r[0]) && !IsTrimmed(r[|r| - 1])
  {
    var t := TrimStart(s);
    TrimStartCuts(s);
    TrimEndCuts(t);
    var r := TrimEnd(t);
    assert r != [] ==> r[0] == t[0];
    r
  }

  /** `TrimStart` drops a blank prefix and keeps the rest, which starts non-blank. */
  lemma {:induction false} TrimStartCuts(s: string)
    ensures var r := TrimStart(s);
      && r == s[|s| - |r|..]
      && (r != [] ==> !IsTrimmed(r[0]))
      && (forall k :: 0 <= k < |s| - |r| ==> IsTrimmed(s[k]))
  {
    if s != [] && IsTrimmed(s[0]) {
      TrimStartCuts(s[1..]);
    }
  }

  /** `TrimEnd` drops a blank suffix and keeps the rest, which ends non-blank. */
  lemma {:induction false} TrimEndCuts(s: string)
    ensures var r := TrimEnd(s);
      && r == s[..|r|]
      && (r != [] ==> !IsTrimmed(r[|r| - 1]))
      && (forall k :: |r| <= k < |s| ==> IsTrimmed(s[k]))
  {
    if s != [] && IsTrimmed(s[|s| - 1]) {
      TrimEndCuts(s[..|s| - 1]);
    }
  }

  /**
   * Cutting a blank prefix off `s` (leaving `t`) and then a blank suffix off
   * `t` (leaving `r`) leaves the infix of `s` that starts `|s| - |t|` in.
   */
  lemma CutsCompose(s: string, t: string, r: string)
    requires |t| <= |s| && t == s[|s| - |t|..] && |r| <= |t| && r == t[..|r|]
    requires forall k :: |r| <= k < |t| ==> IsTrimmed(t[k])
    ensures var i := |s| - |t|;
      && i + |r| <= |s| && s[i..i + |r|] == r
      && (forall k :: i + |r| <= k < |s| ==> IsTrimmed(s[k]))
  {
    var i := |s| - |t|;
    assert s[i..i + |r|] == t[..|r|];
    forall k | i + |r| <= k < |s| ensures IsTrimmed(s[k]) {
      assert s[k] == t[k - i];
    }
  }

  /**
   * What `trim` returns is the piece of its input that starts `i` characters
   * in, it starts and ends with a non-blank character, and everything cut off
   * on either side is blank.
   */
  lemma TrimIsBlankFreeInfix(s: string)
    ensures var i, r := |s| - |TrimStart(s)|, Trim(s);
      && i + |r| <= |s| && s[i..i + |r|] == r
      && (forall k :: 0 <= k < i ==> IsTrimmed(s[k]))
      && (forall k :: i + |r| <= k < |s| ==> IsTrimmed(s[k]))
      && (r != [] ==> !IsTrimmed(r[0]) && !IsTrimmed(r[|r| - 1]))
  {
    var t := TrimStart(s);
    var r := TrimEnd(t);
    TrimStartCuts(s);
    TrimEndCuts(t);
    CutsCompose(s, t, r);
    if r != [] {
      assert r[0] == t[0];
    }
  }

  /** Trimming twice is trimming once. */
  lemma TrimIdempotent(s: string)
    ensures Trim(Trim(s)) == Trim(s)
  {
    var r := Trim(s);
    TrimIsBlankFreeInfix(s);
    if r != [] {
      assert TrimStart(r) == r;
      assert TrimEnd(r) == r;
    }
  }

  /** Number of commas in `s`. */
  function CommaCount(s: string): nat
  {
    if s == [] then 0 else (if s[0] == ',' then 1 else 0) + CommaCount(s[1..])
  }

  /**
   * `s.split(",", -1)`: the pieces between commas, trailing empty pieces
   * kept; the empty text gives one empty field.
   */
  function Split(s: string): (fields: seq<string>)
    ensures |fields| >= 1
  {
    if s == [] then [""]
    else
      var rest := Split(s[1..]);
      if s[0] == ',' then [""] + rest else [[s[0]] + rest[0]] + rest[1..]
  }

  /** The inverse of `Split`: the fields with one comma between neighbours. */
  function Join(fields: seq<string>): string
    requires |fields| >= 1
  {
    if |fields| == 1 then fields[0] else fields[0] + "," + Join(fields[1..])
  }

  /** Splitting yields one field more than there are commas, none of them holding a comma. */
  lemma {:induction false} SplitCount(s: string)
    ensures |Split(s)| == CommaCount(s) + 1
    ensures forall f :: f in Split(s) ==> ',' !in f
  {
    if s != [] {
      SplitCount(s[1..]);
      var rest := Split(s[1..]);
      if s[0] != ',' {
        assert rest == [rest[0]] + rest[1..];
        forall f | f in Split(s) ensures ',' !in f {
          if f != [s[0]] + rest[0] {
            assert f in rest[1..];
          }
        }
      }
    }
  }

  /** Joining the fields of a split gives back the line. */
  lemma {:induction false} JoinSplit(s: string)
    ensures Join(Split(s)) == s
  {
    if s != [] {
      JoinSplit(s[1..]);
      var rest := Split(s[1..]);
      if s[0] == ',' {
        assert Split(s)[1..] == rest;
      } else {
        var fs := Split(s);
        assert fs[1..] == rest[1..];
        if |rest| == 1 {
          assert Join(fs) == [s[0]] + rest[0];
        } else {
          assert Join(rest) == rest[0] + "," + Join(rest[1..]);
        }
        assert s == [s[0]] + s[1..];
      }
    }
  }

  /** A join whose first field is not empty starts with that field's first character. */
  lemma JoinFirstChar(fields: seq<string>)
    requires |fields| >= 1 && fields[0] != []
    ensures Join(fields) == [fields[0][0]] + Join([fields[0][1..]] + fields[1..])
  {
    var f := fields[0];
    var shorter := [f[1..]] + fields[1..];
    assert shorter[1..] == fields[1..];
    assert f == [f[0]] + f[1..];
  }

  /** Dropping the first character of the first field keeps every field comma-free. */
  lemma ShorterCommaFree(fields: seq<string>)
    requires |fields| >= 1 && fields[0] != []
    requires forall f :: f in fields ==> ',' !in f
    ensures forall g :: g in [fields[0][1..]] + fields[1..] ==> ',' !in g
    ensures fields[0][0] != ','
  {
    var f := fields[0];
    assert f in fields;
    forall g | g in [f[1..]] + fields[1..] ensures ',' !in g {
      if g == f[1..] {
        forall k | 0 <= k < |g| ensures g[k] != ',' { assert g[k] == f[k + 1]; }
      } else {
        assert g in fields[1..];
      }
    }
    assert f[0] in f;
  }

  /** Splitting a join of comma-free fields gives back the fields. */
  lemma {:induction false} SplitJoin(fields: seq<string>)
    requires |fields| >= 1
    requires forall f :: f in fields ==> ',' !in f
    ensures Split(Join(fields)) == fields
    decreases |fields|, |fields[0]|
  {
    var f := fields[0];
    if f == [] {
      if |fields| > 1 {
        SplitJoin(fields[1..]);
        assert Join(fields) == [','] + Join(fields[1..]);
        assert Join(fields)[1..] == Join(fields[1..]);
      }
    } else {
      var shorter := [f[1..]] + fields[1..];
      ShorterCommaFree(fields);
      SplitJoin(shorter);
      JoinFirstChar(fields);
      assert Join(fields)[1..] == Join(shorter);
      assert [f[0]] + f[1..] == f;
      assert fields == [f] + fields[1..];
    }
  }

  predicate IsDigit(c: char) {
    '0' <= c <= '9'
  }

  predicate AllDigits(s: string) {
    forall k :: 0 <= k < |s| ==> IsDigit(s[k])
  }

  /** The number written by a string of decimal digits. */
  function DigitsValue(ds: string): nat
    requires AllDigits(ds)
  {
    if ds == [] then 0 else 10 * DigitsValue(ds[..|ds| - 1]) + (ds[|ds| - 1] - '0') as nat
  }

  /**
   * `Long.parseLong`: an optional `+` or `-` followed by one or more ASCII
   * digits `0`-`9`; any other text is `None`, the number-format error. Java
   * also accepts the other Unicode decimal digits here; this model does not.
   */
  function ParseLong(s: string): (r: Option<int>)
    ensures r.Some? && r.value < 0 ==> s != [] && s[0] == '-'
  {
    if s != [] && (s[0] == '-' || s[0] == '+') then
      var ds := s[1..];
      if ds != [] && AllDigits(ds) then
        var v: int := DigitsValue(ds);
        Some(if s[0] == '-' then -v else v)
      else None
    else if s != [] && AllDigits(s) then Some(DigitsValue(s))
    else None
  }

  function Pow10(n: nat): (p: nat)
    ensures p >= 1
  {
    if n == 0 then 1 else 10 * Pow10(n - 1)
  }

  /** Index of the first `.` in `s`, or `|s|` when there is none. */
  function DotIndex(s: string): (k: nat)
    ensures k <= |s|
    ensures k < |s| ==> s[k] == '.'
    ensures forall j :: 0 <= j < k ==> s[j] != '.'
  {
    if s == [] || s[0] == '.' then 0 else 1 + DotIndex(s[1..])
  }

  /** An unsigned decimal: digits, optionally a point and more digits, at least one digit in all. */
  function ParseUnsignedDecimal(s: string): (r: Option<real>)
    ensures r.Some? ==> r.value >= 0.0
  {
    var k := DotIndex(s);
    var whole := s[..k];
    var fraction := if k < |s| then s[k + 1..] else "";
    if AllDigits(whole) && AllDigits(fraction) && |whole| + |fraction| >= 1 then
      Some(DigitsValue(whole) as real + DigitsValue(fraction) as real / Pow10(|fraction|) as real)
    else None
  }

  /**
   * The decimal notation accepted by `Double.parseDouble`: an optional sign
   * and an unsigned decimal; the value is the exact rational it denotes.
   */
  function ParseDecimal(s: string): (r: Option<real>)
    ensures r.Some? && r.value < 0.0 ==> s != [] && s[0] == '-'
  {
    if s != [] && (s[0] == '-' || s[0] == '+') then
      match ParseUnsignedDecimal(s[1..])
      case None => None
      case Some(v) => Some(if s[0] == '-' then -v else v)
    else ParseUnsignedDecimal(s)
  }

  /** Decimal notation of a natural number, most significant digit first. */
  function FormatNat(n: nat): (s: string)
    ensures s != [] && AllDigits(s)
  {
    if n < 10 then ['0' + n as char]
    else FormatNat(n / 10) + ['0' + (n % 10) as char]
  }

  /** Decimal notation of an integer, with a leading `-` when negative. */
  function FormatInt(n: int): string
  {
    if n < 0 then "-" + FormatNat(-n) else FormatNat(n)
  }

  lemma {:induction false} DigitsOfFormatNat(n: nat)
    ensures DigitsValue(FormatNat(n)) == n
    ensures '.' !in FormatNat(n) && ',' !in FormatNat(n)
    ensures !IsTrimmed(FormatNat(n)[0])
    decreases n
  {
    var s := FormatNat(n);
    if n >= 10 {
      DigitsOfFormatNat(n / 10);
      assert s[..|s| - 1] == FormatNat(n / 10);
    }
    assert forall k :: 0 <= k < |s| ==> IsDigit(s[k]);
  }

  /** Parsing the decimal notation of an integer gives back the integer. */
  lemma ParseFormatInt(n: int)
    ensures ParseLong(FormatInt(n)) == Some(n)
    ensures ParseDecimal(FormatInt(n)) == Some(n as real)
  {
    var m := if n < 0 then -n else n;
    var ds := FormatNat(m);
    DigitsOfFormatNat(m);
    assert DotIndex(ds) == |ds|;
    assert ds[..|ds|] == ds;
    assert ParseUnsignedDecimal(ds) == Some(m as real) by {
      assert DigitsValue("") == 0 && Pow10(0) == 1;
    }
    if n < 0 {
      assert FormatInt(n)[1..] == ds;
    }
  }

  /** The decimal notation of an integer has nothing `Trim` would remove and no comma. */
  lemma FormatIntIsTrimmedField(n: int)
    ensures Trim(FormatInt(n)) == FormatInt(n)
    ensures ',' !in FormatInt(n)
  {
    var m := if n < 0 then -n else n;
    DigitsOfFormatNat(m);
    var s := FormatInt(n);
    assert !IsTrimmed(s[0]);
    assert !IsTrimmed(s[|s| - 1]) by {
      if n < 0 { assert s[|s| - 1] == FormatNat(m)[|FormatNat(m)| - 1]; }
    }
    assert TrimStart(s) == s;
  }
}
