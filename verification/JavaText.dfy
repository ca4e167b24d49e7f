/** The pieces of java.lang behaviour the credential table depends on:
    `String.split("\\|")` with its trailing-empty-field rule, and the decimal
    conversions `Integer.toString` / `new Integer(String)` on 32-bit ints. */
module JavaText {
  import opened Wrappers

  /** Java's `int`. */
  type Int32 = x: int | -0x8000_0000 <= x < 0x8000_0000

  // ---------------------------------------------------------------------------
  // Splitting on '|'
  // ---------------------------------------------------------------------------

  /** Every field between '|' delimiters, empty ones included: k pipes give k+1 fields. */
  function RawSplit(s: string): (fields: seq<string>)
    ensures |fields| >= 1
    ensures forall i :: 0 <= i < |fields| ==> '|' !in fields[i]
    decreases |s|
  {
    if |s| == 0 then [""]
    else
      var rest := RawSplit(s[1..]);
      if s[0] == '|' then [""] + rest
      else [[s[0]] + rest[0]] + rest[1..]
  }

  /** Glues fields back together with '|' between them. */
  function Join(fields: seq<string>): string
    requires |fields| >= 1
    decreases |fields|
  {
    if |fields| == 1 then fields[0] else fields[0] + "|" + Join(fields[1..])
  }

  /** Joining the fields of a split gives back the original text. */
  lemma {:induction false} JoinRawSplit(s: string)
    ensures Join(RawSplit(s)) == s
    decreases |s|
  {
    if |s| > 0 {
      var rest := RawSplit(s[1..]);
      JoinRawSplit(s[1..]);
      if s[0] == '|' {
        assert RawSplit(s) == [""] + rest;
        assert ([""] + rest)[1..] == rest;
        assert s == "|" + s[1..];
      } else {
        var fields := RawSplit(s);
        assert fields == [[s[0]] + rest[0]] + rest[1..];
        if |rest| == 1 {
          assert s == [s[0]] + s[1..];
        } else {
          assert fields[1..] == rest[1..];
          assert Join(rest) == rest[0] + "|" + Join(rest[1..]);
          assert s == [s[0]] + s[1..];
        }
      }
    }
  }

  /** A field without '|' followed by a delimiter splits off as exactly one field. */
  lemma {:induction false} RawSplitField(a: string, t: string)
    requires '|' !in a
    ensures RawSplit(a + "|" + t) == [a] + RawSplit(t)
    decreases |a|
  {
    if |a| == 0 {
      assert a + "|" + t == "|" + t;
      assert ("|" + t)[1..] == t;
    } else {
      var s := a + "|" + t;
      assert s[1..] == a[1..] + "|" + t;
      RawSplitField(a[1..], t);
      assert [a[0]] + a[1..] == a;
    }
  }

  /** Text without '|' is one field. */
  lemma {:induction false} RawSplitNoPipe(a: string)
    requires '|' !in a
    ensures RawSplit(a) == [a]
    decreases |a|
  {
    if |a| > 0 {
      RawSplitNoPipe(a[1..]);
      assert [a[0]] + a[1..] == a;
    }
  }

  /** Splitting undoes joining, as long as no field contains the delimiter. */
  lemma {:induction false} RawSplitJoin(fields: seq<string>)
    requires |fields| >= 1
    requires forall i :: 0 <= i < |fields| ==> '|' !in fields[i]
    ensures RawSplit(Join(fields)) == fields
    decreases |fields|
  {
    if |fields| == 1 {
      RawSplitNoPipe(fields[0]);
    } else {
      RawSplitJoin(fields[1..]);
      RawSplitField(fields[0], Join(fields[1..]));
      assert [fields[0]] + fields[1..] == fields;
    }
  }

  /** Java's `split` with limit 0 removes trailing empty strings from the result. */
  function DropTrailingEmpty(fields: seq<string>): (kept: seq<string>)
    ensures |kept| <= |fields| && kept == fields[..|kept|]
    ensures |kept| == 0 || kept[|kept| - 1] != ""
    ensures forall i :: |kept| <= i < |fields| ==> fields[i] == ""
    decreases |fields|
  {
    if |fields| == 0 then []
    else if fields[|fields| - 1] == "" then DropTrailingEmpty(fields[..|fields| - 1])
    else fields
  }

  /** `s.split("\\|")`: when no delimiter occurs, the whole text is the only
      field (even when it is empty); otherwise every field is kept except the
      run of empty fields at the end. */
  function Split(s: string): (params: seq<string>)
    ensures '|' !in s ==> params == [s]
    ensures '|' in s ==> |params| <= |RawSplit(s)| && params == RawSplit(s)[..|params|]
    ensures '|' in s ==> |params| == 0 || params[|params| - 1] != ""
    ensures '|' in s ==> forall i :: |params| <= i < |RawSplit(s)| ==> RawSplit(s)[i] == ""
  {
    if '|' !in s then [s] else DropTrailingEmpty(RawSplit(s))
  }

  /** Text made of pipes alone splits into fields that are all empty. */
  lemma {:induction false} RawSplitAllPipes(s: string)
    requires forall i :: 0 <= i < |s| ==> s[i] == '|'
    ensures forall i :: 0 <= i < |RawSplit(s)| ==> RawSplit(s)[i] == ""
    decreases |s|
  {
    if |s| > 0 {
      RawSplitAllPipes(s[1..]);
      assert RawSplit(s) == [""] + RawSplit(s[1..]);
    }
  }

  /** Joining empty fields leaves nothing but the delimiters. */
  lemma {:induction false} JoinEmptyFields(fields: seq<string>)
    requires |fields| >= 1
    requires forall i :: 0 <= i < |fields| ==> fields[i] == ""
    ensures forall i :: 0 <= i < |Join(fields)| ==> Join(fields)[i] == '|'
    decreases |fields|
  {
    if |fields| > 1 {
      JoinEmptyFields(fields[1..]);
      assert Join(fields) == "|" + Join(fields[1..]);
    }
  }

  /** `split` returns no field at all exactly when the text is one or more pipes
      and nothing else. */
  lemma NoFieldsIffOnlyPipes(s: string)
    ensures |Split(s)| == 0 <==> (|s| > 0 && forall i :: 0 <= i < |s| ==> s[i] == '|')
  {
    if |s| > 0 && forall i :: 0 <= i < |s| ==> s[i] == '|' {
      assert s[0] in s;
      RawSplitAllPipes(s);
    }
    if |Split(s)| == 0 {
      assert '|' in s;
      var fields := RawSplit(s);
      assert forall i :: 0 <= i < |fields| ==> fields[i] == "";
      JoinEmptyFields(fields);
      JoinRawSplit(s);
    }
  }

  // ---------------------------------------------------------------------------
  // Decimal conversions
  // ---------------------------------------------------------------------------

  predicate IsDigit(c: char) {
    '0' <= c <= '9'
  }

  predicate AllDigits(s: string) {
    forall i :: 0 <= i < |s| ==> IsDigit(s[i])
  }

  /** The value of a string of decimal digits (leading zeros allowed). */
  function DigitsValue(ds: string): nat
    requires AllDigits(ds)
    decreases |ds|
  {
    if |ds| == 0 then 0
    else DigitsValue(ds[..|ds| - 1]) * 10 + (ds[|ds| - 1] - '0') as nat
  }

  /** The shortest decimal spelling of `n`. */
  function NatToDigits(n: nat): (ds: string)
    ensures |ds| >= 1 && AllDigits(ds)
    ensures DigitsValue(ds) == n
    decreases n
  {
    if n < 10 then [('0' as int + n) as char]
    else
      var prefix := NatToDigits(n / 10);
      var ds := prefix + [('0' as int + n % 10) as char];
      assert ds[..|ds| - 1] == prefix;
      ds
  }

  /** `Integer.toString(n)`, which is also what `StringBuilder.append(int)` writes. */
  function IntToString(n: Int32): (s: string)
    ensures |s| >= 1
    ensures forall i :: 0 <= i < |s| ==> IsDigit(s[i]) || s[i] == '-'
    ensures '|' !in s && '_' !in s
  {
    if n < 0 then "-" + NatToDigits(-(n as int)) else NatToDigits(n)
  }

  /** `Some(v)` when `v` fits in a Java int, `None` (overflow) otherwise. */
  function ToInt32(v: int): Option<Int32> {
    if -0x8000_0000 <= v < 0x8000_0000 then Some(v) else None
  }

  /** A decimal numeral as `Integer.parseInt` reads it: an optional `+` or
      `-` followed by at least one digit. */
  predicate Numeral(s: string) {
    if |s| >= 1 && (s[0] == '-' || s[0] == '+') then |s| >= 2 && AllDigits(s[1..])
    else |s| >= 1 && AllDigits(s)
  }

  /** The value a numeral denotes, before any range check. */
  function NumeralValue(s: string): int
    requires Numeral(s)
  {
    if s[0] == '-' then -(DigitsValue(s[1..]) as int)
    else if s[0] == '+' then DigitsValue(s[1..])
    else DigitsValue(s)
  }

  /** `new Integer(s)` (that is, `Integer.parseInt(s, 10)`): an optional sign
      followed by at least one digit, with a value in the int range;
      `None` stands for the NumberFormatException thrown otherwise. */
  function ParseInt(s: string): (r: Option<Int32>)
    ensures r.Some? ==> |s| >= 1 && (IsDigit(s[0]) || s[0] == '-' || s[0] == '+')
    ensures r.Some? ==> forall i :: 0 < i < |s| ==> IsDigit(s[i])
    ensures r.Some? && s[0] == '-' ==> r.value <= 0
    ensures r.Some? && s[0] != '-' ==> r.value >= 0
  {
    if |s| == 0 then None
    else if s[0] == '-' || s[0] == '+' then
      if |s| == 1 || !AllDigits(s[1..]) then None
      else if s[0] == '-' then ToInt32(-(DigitsValue(s[1..]) as int))
      else ToInt32(DigitsValue(s[1..]))
    else if !AllDigits(s) then None
    else ToInt32(DigitsValue(s))
  }

  /** What `new Integer(s)` accepts and what it yields: exactly the numerals
      whose value fits in an int, each parsed to its value; malformed text and
      overflow are the only rejections. */
  lemma ParseIntMeaning(s: string)
    ensures ParseInt(s).Some? <==> Numeral(s) && -0x8000_0000 <= NumeralValue(s) < 0x8000_0000
    ensures ParseInt(s).Some? ==> ParseInt(s).value == NumeralValue(s)
  {
  }

  /** A leading zero does not change the value of a digit string. */
  lemma {:induction false} DigitsValueLeadingZero(ds: string)
    requires AllDigits(ds)
    ensures AllDigits("0" + ds) && DigitsValue("0" + ds) == DigitsValue(ds)
    decreases |ds|
  {
    var zs := "0" + ds;
    assert forall i :: 0 < i < |zs| ==> zs[i] == ds[i - 1];
    if |ds| == 0 {
      assert zs[..0] == "";
    } else {
      var init := ds[..|ds| - 1];
      assert AllDigits(init);
      DigitsValueLeadingZero(init);
      assert zs[..|zs| - 1] == "0" + init;
      assert zs[|zs| - 1] == ds[|ds| - 1];
    }
  }

  /** Leading zeros are accepted and ignored: `"007"` parses like `"7"`. */
  lemma ParseIntLeadingZero(ds: string)
    requires |ds| >= 1 && AllDigits(ds)
    ensures ParseInt("0" + ds) == ParseInt(ds)
  {
    DigitsValueLeadingZero(ds);
    assert ("0" + ds)[0] == '0';
  }

  /** An explicit `+` is accepted and ignored: `"+22"` parses like `"22"`. */
  lemma ParseIntPlusSign(ds: string)
    requires |ds| >= 1 && AllDigits(ds)
    ensures ParseInt("+" + ds) == ParseInt(ds)
  {
    assert ("+" + ds)[1..] == ds;
    assert IsDigit(ds[0]);
  }

  /** Every digit string whose value fits in an int parses to that value, and
      one past the largest int overflows. */
  lemma ParseIntDigits(ds: string)
    requires |ds| >= 1 && AllDigits(ds)
    ensures DigitsValue(ds) < 0x8000_0000 ==> ParseInt(ds) == Some(DigitsValue(ds))
    ensures DigitsValue(ds) >= 0x8000_0000 ==> ParseInt(ds) == None
  {
    assert IsDigit(ds[0]);
  }

  /** Parsing what `Integer.toString` printed gives the same int back. */
  lemma ParseIntToString(n: Int32)
    ensures ParseInt(IntToString(n)) == Some(n)
  {
    var s := IntToString(n);
    if n < 0 {
      assert s[1..] == NatToDigits(-(n as int));
    } else {
      var ds := NatToDigits(n);
      assert IsDigit(ds[0]);
    }
  }

  /** Distinct ints print differently. */
  lemma IntToStringInjective(m: Int32, n: Int32)
    requires IntToString(m) == IntToString(n)
    ensures m == n
  {
    ParseIntToString(m);
    ParseIntToString(n);
  }
}
