/** Person column headers of the form `name_n`: Python's `str.split`, the
    integer suffix as `int()` reads it, and the header a merge writes back. */
module Headers {
  import opened Base

  /** `s.split(sep)`: the fields between separators, at least one. */
  function Split(s: string, sep: char): (r: seq<string>)
    ensures |r| >= 1
    decreases |s|
  {
    if |s| == 0 then [""]
    else
      var rest := Split(s[1..], sep);
      if s[0] == sep then [""] + rest else [[s[0]] + rest[0]] + rest[1..]
  }

  /** `sep.join(fields)`. */
  function Join(fields: seq<string>, sep: char): string
    requires |fields| >= 1
  {
    if |fields| == 1 then fields[0] else fields[0] + [sep] + Join(fields[1..], sep)
  }

  /** Splitting loses nothing: no field holds the separator, and joining the
      fields back gives the string. */
  lemma {:induction false} SplitJoin(s: string, sep: char)
    ensures forall k :: 0 <= k < |Split(s, sep)| ==> sep !in Split(s, sep)[k]
    ensures Join(Split(s, sep), sep) == s
    decreases |s|
  {
    if |s| > 0 {
      SplitJoin(s[1..], sep);
      var rest := Split(s[1..], sep);
      if s[0] != sep {
        var r := Split(s, sep);
        assert r[1..] == rest[1..];
        forall k | 0 <= k < |r| ensures sep !in r[k] {
          if k > 0 { assert r[k] == rest[k]; }
        }
        if |rest| > 1 {
          assert Join(rest, sep) == rest[0] + [sep] + Join(rest[1..], sep);
        }
        assert s == [s[0]] + s[1..];
      } else {
        assert s == [s[0]] + s[1..];
      }
    }
  }

  /** Joining fields that hold no separator and splitting again gives the fields. */
  lemma {:induction false} JoinSplit(fields: seq<string>, sep: char)
    requires |fields| >= 1
    requires forall k :: 0 <= k < |fields| ==> sep !in fields[k]
    ensures Split(Join(fields, sep), sep) == fields
    decreases |fields|, |fields[0]|
  {
    if |fields[0]| > 0 {
      var f0 := fields[0];
      var shorter := [f0[1..]] + fields[1..];
      assert Join(fields, sep) == [f0[0]] + Join(shorter, sep) by {
        if |fields| > 1 {
          assert shorter[1..] == fields[1..];
          assert f0 == [f0[0]] + f0[1..];
        } else {
          assert f0 == [f0[0]] + f0[1..];
        }
      }
      forall k | 0 <= k < |shorter| ensures sep !in shorter[k] {
        if k > 0 { assert shorter[k] == fields[k]; } else { assert f0[1..] <= f0[1..]; assert forall c :: c in f0[1..] ==> c in f0; }
      }
      JoinSplit(shorter, sep);
      assert f0[0] in f0;
      var j := Join(fields, sep);
      assert j[1..] == Join(shorter, sep);
      assert [[f0[0]] + shorter[0]] + shorter[1..] == fields by {
        assert [f0[0]] + f0[1..] == f0;
        assert shorter[1..] == fields[1..];
      }
    } else if |fields| > 1 {
      JoinSplit(fields[1..], sep);
      var j := Join(fields, sep);
      assert j == [sep] + Join(fields[1..], sep);
      assert j[1..] == Join(fields[1..], sep);
      assert [""] + fields[1..] == fields;
    }
  }

  predicate IsDigit(c: char)
  {
    '0' <= c <= '9'
  }

  function DigitsValue(ds: string): (n: nat)
    requires forall k :: 0 <= k < |ds| ==> IsDigit(ds[k])
  {
    if ds == [] then 0
    else
      assert IsDigit(ds[|ds| - 1]);
      10 * DigitsValue(ds[..|ds| - 1]) + (ds[|ds| - 1] as int - '0' as int)
  }

  /** The characters for which Python's `str.isspace()` holds. */
  predicate IsSpace(c: char)
  {
    (9 <= c as int <= 13) || (28 <= c as int <= 32) || c as int == 0x85 || c as int == 0xA0 ||
    c as int == 0x1680 || (0x2000 <= c as int <= 0x200A) || c as int == 0x2028 || c as int == 0x2029 ||
    c as int == 0x202F || c as int == 0x205F || c as int == 0x3000
  }

  /** An optional sign followed by at least one decimal digit. */
  function ParseNumeral(s: string): (r: Option<int>)
  {
    if |s| > 0 && (s[0] == '-' || s[0] == '+') then
      var ds := s[1..];
      if |ds| > 0 && forall k :: 0 <= k < |ds| ==> IsDigit(ds[k]) then
        var v: int := if s[0] == '-' then -(DigitsValue(ds) as int) else DigitsValue(ds);
        Some(v)
      else None
    else if |s| > 0 && forall k :: 0 <= k < |s| ==> IsDigit(s[k]) then Some(DigitsValue(s))
    else None
  }

  /** The integer a suffix denotes when both `float(s).is_integer()` and
      `int(s)` accept it: surrounding whitespace, then an optional sign and
      ASCII decimal digits. The whitespace is dropped one character at a
      time from either end, which is `s.strip()`. A suffix with `_` never
      reaches here, since the header was split on `_`. */
  function ParseInt(s: string): Option<int>
    decreases |s|
  {
    if |s| > 0 && IsSpace(s[0]) then ParseInt(s[1..])
    else if |s| > 0 && IsSpace(s[|s| - 1]) then ParseInt(s[..|s| - 1])
    else ParseNumeral(s)
  }

  function DigitChar(d: nat): (c: char)
    requires d < 10
    ensures IsDigit(c) && c as int - '0' as int == d
  {
    ('0' as int + d) as char
  }

  /** `str(n)` for a natural number. */
  function NatToString(n: nat): (s: string)
    ensures |s| > 0
    ensures forall k :: 0 <= k < |s| ==> IsDigit(s[k])
  {
    if n < 10 then [DigitChar(n)] else NatToString(n / 10) + [DigitChar(n % 10)]
  }

  /** `str(n)` for any integer. */
  function IntToString(n: int): (s: string)
  {
    if n < 0 then "-" + NatToString(-n) else NatToString(n)
  }

  lemma {:induction false} NatToStringValue(n: nat)
    ensures DigitsValue(NatToString(n)) == n
  {
    if n >= 10 {
      NatToStringValue(n / 10);
      var s := NatToString(n);
      assert s[..|s| - 1] == NatToString(n / 10);
    }
  }

  /** `int(str(n)) == n`: the suffix a merge writes is read back as written. */
  lemma IntToStringRoundTrip(n: int)
    ensures ParseInt(IntToString(n)) == Some(n)
    ensures '_' !in IntToString(n)
  {
    var s := IntToString(n);
    IntToStringNoSpace(n);
    assert !IsSpace(s[0]) && !IsSpace(s[|s| - 1]);
    assert ParseInt(s) == ParseNumeral(s);
    if n < 0 {
      var ds := NatToString(-n);
      NatToStringValue(-n);
      assert s == "-" + ds;
      assert s[1..] == ds;
      assert s[0] == '-';
      assert forall c :: c in s ==> c == '-' || IsDigit(c);
    } else {
      NatToStringValue(n);
      assert !IsDigit('-') && !IsDigit('+');
      assert s[0] != '-' && s[0] != '+';
      assert forall c :: c in s ==> IsDigit(c);
    }
  }

  lemma IntToStringNoSpace(n: int)
    ensures |IntToString(n)| > 0
    ensures forall k :: 0 <= k < |IntToString(n)| ==> IntToString(n)[k] == '-' || IsDigit(IntToString(n)[k])
  {
    if n < 0 {
      assert IntToString(n) == "-" + NatToString(-n);
    }
  }

  /** Leading whitespace is ignored. */
  lemma {:induction false} ParseIntLeading(pre: string, t: string)
    requires forall k :: 0 <= k < |pre| ==> IsSpace(pre[k])
    requires |t| > 0 && !IsSpace(t[0])
    ensures ParseInt(pre + t) == ParseInt(t)
  {
    if pre != [] {
      assert (pre + t)[0] == pre[0];
      assert (pre + t)[1..] == pre[1..] + t;
      ParseIntLeading(pre[1..], t);
    } else {
      assert pre + t == t;
    }
  }

  /** Trailing whitespace is ignored. */
  lemma {:induction false} ParseIntTrailing(t: string, post: string)
    requires forall k :: 0 <= k < |post| ==> IsSpace(post[k])
    requires |t| > 0 && !IsSpace(t[0]) && !IsSpace(t[|t| - 1])
    ensures ParseInt(t + post) == ParseNumeral(t)
  {
    if post != [] {
      assert (t + post)[0] == t[0];
      assert (t + post)[..|t + post| - 1] == t + post[..|post| - 1];
      ParseIntTrailing(t, post[..|post| - 1]);
    } else {
      assert t + post == t;
    }
  }

  /** `int(" 2 ") == 2`: whitespace around a written shift count is ignored,
      as `float` and `int` ignore it. */
  lemma ParseIntPadded(pre: string, n: int, post: string)
    requires forall k :: 0 <= k < |pre| ==> IsSpace(pre[k])
    requires forall k :: 0 <= k < |post| ==> IsSpace(post[k])
    ensures ParseInt(pre + IntToString(n) + post) == Some(n)
  {
    var t := IntToString(n);
    IntToStringNoSpace(n);
    IntToStringRoundTrip(n);
    assert pre + t + post == pre + (t + post);
    ParseIntLeading(pre, t + post);
    ParseIntTrailing(t, post);
    assert ParseInt(t) == ParseNumeral(t);
  }

  datatype HeaderError = MissingSuffix(header: string) | BadSuffix(header: string)

  datatype Header = Header(name: string, nShifts: int)

  datatype ParseResult = Parsed(h: Header) | Invalid(error: HeaderError)

  /** How `create_team_availability` reads a person header: no `_` is an
      error; otherwise the name is the first field and the shift count the
      second field of `split('_')`, which must be an integer. */
  function ParseHeader(h: string): (r: ParseResult)
    ensures r.Invalid? && r.error.MissingSuffix? <==> '_' !in h
    ensures '_' in h <==> |Split(h, '_')| >= 2
    ensures r.Parsed? ==> |Split(h, '_')| >= 2 && ParseInt(Split(h, '_')[1]) == Some(r.h.nShifts)
    ensures r.Parsed? ==> '_' !in r.h.name && r.h.name == Split(h, '_')[0]
    ensures r.Invalid? && r.error.BadSuffix? <==> '_' in h && ParseInt(Split(h, '_')[1]).None?
    ensures r.Parsed? ==> |r.h.name| < |h| && h[..|r.h.name|] == r.h.name && h[|r.h.name|] == '_'
  {
    var fields := Split(h, '_');
    SplitJoin(h, '_');
    if '_' !in h then Invalid(MissingSuffix(h))
    else
      assert h == fields[0] + "_" + Join(fields[1..], '_');
      match ParseInt(fields[1])
      case None => Invalid(BadSuffix(h))
      case Some(n) => Parsed(Header(fields[0], n))
  }

  /** How the merge step reads a chosen header: `name, shifts = col.split('_')`
      needs exactly two fields and `int(shifts)` an integer; anything else
      raises the `ValueError` that the prompt loop catches. */
  function ParseMergeHeader(h: string): (r: Option<Header>)
    ensures r.Some? <==> |Split(h, '_')| == 2 && ParseInt(Split(h, '_')[1]).Some?
    ensures r.Some? ==> '_' !in r.value.name && h == r.value.name + "_" + Split(h, '_')[1]
    ensures r.Some? ==> ParseInt(Split(h, '_')[1]) == Some(r.value.nShifts)
  {
    var fields := Split(h, '_');
    SplitJoin(h, '_');
    if |fields| != 2 then None
    else
      assert h == fields[0] + "_" + fields[1];
      match ParseInt(fields[1])
      case None => None
      case Some(n) => Some(Header(fields[0], n))
  }

  /** A header whose shift count has whitespace around it, as a spreadsheet
      cell may hold it, still gives that member the count: `Ann_2 ` is Ann
      with two shifts, both for the team and for the merge prompt. */
  lemma PaddedHeaderParses(name: string, pre: string, n: int, post: string)
    requires '_' !in name
    requires forall k :: 0 <= k < |pre| ==> IsSpace(pre[k])
    requires forall k :: 0 <= k < |post| ==> IsSpace(post[k])
    ensures ParseHeader(name + "_" + pre + IntToString(n) + post) == Parsed(Header(name, n))
    ensures ParseMergeHeader(name + "_" + pre + IntToString(n) + post) == Some(Header(name, n))
  {
    var suffix := pre + IntToString(n) + post;
    ParseIntPadded(pre, n, post);
    PaddedNoUnderscore(pre, n, post);
    var fields := [name, suffix];
    var h := name + "_" + pre + IntToString(n) + post;
    assert h == name + "_" + suffix;
    assert Join(fields, '_') == h by {
      assert Join(fields[1..], '_') == suffix;
    }
    JoinSplit(fields, '_');
    assert '_' in h by { assert h[|name|] == '_'; }
  }

  lemma PaddedNoUnderscore(pre: string, n: int, post: string)
    requires forall k :: 0 <= k < |pre| ==> IsSpace(pre[k])
    requires forall k :: 0 <= k < |post| ==> IsSpace(post[k])
    ensures '_' !in pre + IntToString(n) + post
  {
    IntToStringRoundTrip(n);
    assert !IsSpace('_');
    assert '_' !in pre && '_' !in post;
  }

  function MergedHeader(name1: string, name2: string, n: int): string
  {
    name1 + "-" + name2 + "_" + IntToString(n)
  }

  /** A merged header parses back to the joined names and the summed count,
      both as `create_team_availability` and as the merge step read it. */
  lemma MergedHeaderParses(name1: string, name2: string, n: int)
    requires '_' !in name1 && '_' !in name2
    ensures ParseHeader(MergedHeader(name1, name2, n)) == Parsed(Header(name1 + "-" + name2, n))
    ensures ParseMergeHeader(MergedHeader(name1, name2, n)) == Some(Header(name1 + "-" + name2, n))
  {
    var name := name1 + "-" + name2;
    var suffix := IntToString(n);
    IntToStringRoundTrip(n);
    assert '_' !in name by {
      assert forall c :: c in name ==> c in name1 || c == '-' || c in name2;
    }
    var fields := [name, suffix];
    assert Join(fields, '_') == MergedHeader(name1, name2, n) by {
      assert Join(fields[1..], '_') == suffix;
    }
    JoinSplit(fields, '_');
    var h := MergedHeader(name1, name2, n);
    assert '_' in h by { assert h[|name|] == '_'; }
  }
}
