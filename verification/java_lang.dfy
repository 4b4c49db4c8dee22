/**
 * The parts of java.lang that AppSettings relies on: String.trim, String.replaceAll and
 * String.split with a one-character literal pattern, ASCII case mapping and
 * equalsIgnoreCase, Integer.parseInt and Boolean.parseBoolean.
 */
module JavaLang {
  import opened Wrappers

  /** Java's 32-bit `int`. */
  newtype int32 = x: int | -0x8000_0000 <= x < 0x8000_0000

  // ---------------------------------------------------------------- trim

  /** The characters `String.trim` strips from both ends: every code point up to U+0020. */
  predicate IsTrimmable(c: char) { c <= ' ' }

  /** Every character of `s` would be stripped by `trim`. */
  predicate IsBlank(s: string) { forall i :: 0 <= i < |s| ==> IsTrimmable(s[i]) }

  function TrimStart(s: string): (r: string)
    ensures |r| <= |s| && r == s[|s| - |r|..]
    ensures r == [] || !IsTrimmable(r[0])
    ensures forall i :: 0 <= i < |s| - |r| ==> IsTrimmable(s[i])
  {
    if |s| > 0 && IsTrimmable(s[0]) then TrimStart(s[1..]) else s
  }

  function TrimEnd(s: string): (r: string)
    ensures |r| <= |s| && r == s[..|r|]
    ensures r == [] || !IsTrimmable(r[|r| - 1])
    ensures forall i :: |r| <= i < |s| ==> IsTrimmable(s[i])
  {
    if |s| > 0 && IsTrimmable(s[|s| - 1]) then TrimEnd(s[..|s| - 1]) else s
  }

  /** `String.trim`: strip the trimmable characters from both ends. */
  function Trim(s: string): (r: string)
    ensures |r| <= |s|
    ensures r == [] || (!IsTrimmable(r[0]) && !IsTrimmable(r[|r| - 1]))
  {
    var t := TrimStart(s);
    var r := TrimEnd(t);
    assert r != [] ==> r[0] == t[0];
    r
  }

  /** What `trim` keeps is a contiguous piece of its input, and only trimmable characters are dropped. */
  lemma TrimKeepsInfix(s: string)
    ensures var k := |s| - |TrimStart(s)|;
      && Trim(s) == s[k..k + |Trim(s)|]
      && forall i :: 0 <= i < |s| && !(k <= i < k + |Trim(s)|) ==> IsTrimmable(s[i])
  {
  }

  /** `s.trim().equals("")` holds exactly when every character of `s` is at most U+0020. */
  lemma TrimEmptyIffBlank(s: string)
    ensures Trim(s) == "" <==> IsBlank(s)
  {
  }

  // ---------------------------------------------------------------- replaceAll, contains, split

  /** `s.replaceAll(from, to)` for a one-character pattern with no regex meaning. */
  function ReplaceChar(s: string, from: char, to: char): (r: string)
    ensures |r| == |s|
    ensures forall i :: 0 <= i < |s| ==> r[i] == (if s[i] == from then to else s[i])
  {
    if s == [] then [] else [if s[0] == from then to else s[0]] + ReplaceChar(s[1..], from, to)
  }

  /** The pieces of `s` between occurrences of `sep`, empty pieces included. */
  function Split(s: string, sep: char): (parts: seq<string>)
    ensures |parts| >= 1
    ensures forall p :: p in parts ==> sep !in p
    ensures forall p, c :: p in parts && c in p ==> c in s
  {
    if s == [] then [""]
    else
      var rest := Split(s[1..], sep);
      if s[0] == sep then [""] + rest
      else [[s[0]] + rest[0]] + rest[1..]
  }

  function DropTrailingEmpty(parts: seq<string>): (r: seq<string>)
    ensures |r| <= |parts| && r == parts[..|r|]
    ensures r == [] || r[|r| - 1] != ""
    ensures forall i :: |r| <= i < |parts| ==> parts[i] == ""
  {
    if parts != [] && parts[|parts| - 1] == "" then DropTrailingEmpty(parts[..|parts| - 1])
    else parts
  }

  /** The longest prefix of `s` holding no separator. */
  function Before(s: string, sep: char): (r: string)
    ensures sep !in r && |r| <= |s| && r == s[..|r|]
    ensures |r| < |s| ==> s[|r|] == sep
    ensures sep in s ==> |r| < |s|
  {
    if s == [] || s[0] == sep then [] else [s[0]] + Before(s[1..], sep)
  }

  /** Every character of `s` is `c`. */
  predicate AllChar(s: string, c: char) { forall i :: 0 <= i < |s| ==> s[i] == c }

  /** The pieces glued back together with the separator between consecutive pieces. */
  function Join(parts: seq<string>, sep: char): string
  {
    if parts == [] then ""
    else if |parts| == 1 then parts[0]
    else parts[0] + [sep] + Join(parts[1..], sep)
  }

  lemma {:induction false} JoinSnoc(parts: seq<string>, x: string, sep: char)
    requires parts != []
    ensures Join(parts + [x], sep) == Join(parts, sep) + [sep] + x
  {
    assert (parts + [x])[0] == parts[0];
    if |parts| > 1 {
      assert (parts + [x])[1..] == parts[1..] + [x];
      JoinSnoc(parts[1..], x, sep);
    }
  }

  /** Gluing the pieces of `Split` gives back the string. */
  lemma {:induction false} JoinSplit(s: string, sep: char)
    ensures Join(Split(s, sep), sep) == s
  {
    if s != [] {
      var rest := Split(s[1..], sep);
      JoinSplit(s[1..], sep);
      if s[0] == sep {
        assert ([""] + rest)[1..] == rest;
        assert s == [sep] + s[1..];
      } else if |rest| == 1 {
        assert s == [s[0]] + rest[0];
      } else {
        assert ([[s[0]] + rest[0]] + rest[1..])[1..] == rest[1..];
        assert s == [s[0]] + (rest[0] + [sep] + Join(rest[1..], sep));
      }
    }
  }

  /** The first piece of `Split` is everything before the first separator. */
  lemma {:induction false} SplitFirstPiece(s: string, sep: char)
    ensures Split(s, sep)[0] == Before(s, sep)
  {
    if s != [] && s[0] != sep {
      SplitFirstPiece(s[1..], sep);
    }
  }

  /** Every piece is empty. */
  predicate AllEmpty(parts: seq<string>) { forall i :: 0 <= i < |parts| ==> parts[i] == "" }

  /** Pieces that are all empty glue into separators only. */
  lemma {:induction false} JoinOfEmpties(parts: seq<string>, sep: char)
    requires AllEmpty(parts)
    ensures AllChar(Join(parts, sep), sep)
  {
    if |parts| > 1 {
      JoinOfEmpties(parts[1..], sep);
    }
  }

  lemma OnlySeparatorsIsEmpty(p: string, sep: char)
    requires sep !in p
    ensures (forall c :: c in p ==> c == sep) ==> p == ""
  {
    if p != "" {
      assert p[0] in p;
    }
  }

  /** A string of separators only is exactly one whose pieces are all empty. */
  lemma SplitAllEmpty(s: string, sep: char)
    ensures AllChar(s, sep) <==> AllEmpty(Split(s, sep))
  {
    var parts := Split(s, sep);
    if AllChar(s, sep) {
      forall i | 0 <= i < |parts| ensures parts[i] == "" {
        var p := parts[i];
        assert p in parts;
        OnlySeparatorsIsEmpty(p, sep);
      }
    }
    if AllEmpty(parts) {
      JoinSplit(s, sep);
      JoinOfEmpties(parts, sep);
      assert AllChar(s, sep);
    }
  }

  /** Dropping trailing empty pieces shortens the glued string by separators only. */
  lemma {:induction false} DropTrailingJoin(parts: seq<string>, sep: char)
    ensures var j, k := Join(DropTrailingEmpty(parts), sep), Join(parts, sep);
      |j| <= |k| && k[..|j|] == j && AllChar(k[|j|..], sep)
  {
    if parts != [] && parts[|parts| - 1] == "" {
      var init := parts[..|parts| - 1];
      DropTrailingJoin(init, sep);
      assert parts == init + [""];
      if init != [] {
        JoinSnoc(init, "", sep);
        var j, k := Join(DropTrailingEmpty(init), sep), Join(init, sep);
        assert Join(parts, sep) == k + [sep];
        assert (k + [sep])[..|j|] == k[..|j|];
        assert (k + [sep])[|j|..] == k[|j|..] + [sep];
      }
    }
  }

  /**
   * `s.split(sep)` with a one-character pattern: no match gives `[s]`; otherwise the pieces
   * between separators with the trailing empty pieces removed, so that gluing the pieces
   * back gives `s` up to a tail of separators and the last piece is never empty.
   */
  function JavaSplit(s: string, sep: char): (parts: seq<string>)
    ensures forall p :: p in parts ==> sep !in p
    ensures forall p, c :: p in parts && c in p ==> c in s
    ensures sep !in s ==> parts == [s]
    ensures sep in s ==> parts == [] || parts[|parts| - 1] != ""
    ensures var j := Join(parts, sep);
      |j| <= |s| && s[..|j|] == j && AllChar(s[|j|..], sep)
  {
    if sep !in s then [s]
    else
      JoinSplit(s, sep);
      DropTrailingJoin(Split(s, sep), sep);
      DropTrailingEmpty(Split(s, sep))
  }

  /** Splitting a piece free of the separator, followed by anything, extends the first piece. */
  lemma {:induction false} SplitPrefix(a: string, rest: string, sep: char)
    requires sep !in a
    ensures Split(a + rest, sep) == [a + Split(rest, sep)[0]] + Split(rest, sep)[1..]
  {
    if a != [] {
      var s := Split(rest, sep);
      assert (a + rest)[1..] == a[1..] + rest;
      SplitPrefix(a[1..], rest, sep);
      var r := Split(a[1..] + rest, sep);
      assert r[0] == a[1..] + s[0] && r[1..] == s[1..];
      assert (a + rest)[0] == a[0] != sep;
      assert Split(a + rest, sep) == [[a[0]] + r[0]] + r[1..];
      assert [a[0]] + (a[1..] + s[0]) == a + s[0];
    } else {
      var s := Split(rest, sep);
      assert a + rest == rest && a + s[0] == s[0];
      assert s == [s[0]] + s[1..];
    }
  }

  /** A string free of the separator is one piece. */
  lemma SplitNoSeparator(a: string, sep: char)
    requires sep !in a
    ensures Split(a, sep) == [a]
  {
    SplitPrefix(a, [], sep);
    assert a + [] == a;
  }

  /** `a + sep + b`, with neither side holding the separator, splits into exactly `a` and `b`. */
  lemma SplitPair(a: string, b: string, sep: char)
    requires sep !in a && sep !in b
    ensures Split(a + [sep] + b, sep) == [a, b]
  {
    SplitNoSeparator(b, sep);
    assert ([sep] + b)[1..] == b;
    assert Split([sep] + b, sep) == ["", b];
    assert a + [sep] + b == a + ([sep] + b);
    SplitPrefix(a, [sep] + b, sep);
    assert a + "" == a;
  }

  /**
   * After a separator-free first piece `a` and a separator, `split` yields at least two pieces
   * exactly when the rest `u` is not all separators; the second piece is then `u` up to its
   * first separator.
   */
  lemma JavaSplitAfterFirst(a: string, u: string, sep: char)
    requires sep !in a
    ensures var parts := JavaSplit(a + [sep] + u, sep);
      && (|parts| >= 2 <==> !AllChar(u, sep))
      && (|parts| >= 2 ==> parts[0] == a && parts[1] == Before(u, sep))
  {
    var s := a + [sep] + u;
    assert s[|a|] == sep;
    var rest := Split(u, sep);
    assert ([sep] + u)[1..] == u;
    assert Split([sep] + u, sep) == [""] + rest;
    assert s == a + ([sep] + u);
    SplitPrefix(a, [sep] + u, sep);
    assert a + "" == a;
    var whole := [a] + rest;
    assert Split(s, sep) == whole;
    var parts := DropTrailingEmpty(whole);
    assert JavaSplit(s, sep) == parts;
    SplitAllEmpty(u, sep);
    if AllChar(u, sep) {
      assert forall k :: 1 <= k < |whole| ==> whole[k] == "";
      assert parts == [] || parts[|parts| - 1] == whole[|parts| - 1];
    } else {
      var i :| 0 <= i < |rest| && rest[i] != "";
      assert whole[i + 1] == rest[i];
      SplitFirstPiece(u, sep);
    }
  }

  /** `a + sep + b`, neither side holding the separator, splits as Java does: trailing empties go. */
  lemma JavaSplitPair(a: string, b: string, sep: char)
    requires sep !in a && sep !in b
    ensures JavaSplit(a + [sep] + b, sep) == if b != "" then [a, b] else if a != "" then [a] else []
  {
    SplitPair(a, b, sep);
    assert (a + [sep] + b)[|a|] == sep;
    if b == "" {
      assert [a, b][..1] == [a];
      if a == "" {
        assert [a][..0] == [];
      }
    }
  }

  // ---------------------------------------------------------------- case mapping

  /** `Character.toLowerCase` restricted to ASCII. */
  function ToLowerChar(c: char): char { if 'A' <= c <= 'Z' then (c as int + 32) as char else c }

  /** `Character.toUpperCase` restricted to ASCII. */
  function ToUpperChar(c: char): char { if 'a' <= c <= 'z' then (c as int - 32) as char else c }

  function ToLower(s: string): (r: string)
    ensures |r| == |s|
    ensures forall i :: 0 <= i < |s| ==> r[i] == ToLowerChar(s[i])
  {
    if s == [] then [] else [ToLowerChar(s[0])] + ToLower(s[1..])
  }

  function ToUpper(s: string): (r: string)
    ensures |r| == |s|
    ensures forall i :: 0 <= i < |s| ==> r[i] == ToUpperChar(s[i])
  {
    if s == [] then [] else [ToUpperChar(s[0])] + ToUpper(s[1..])
  }

  predicate HasNoUpper(s: string) { forall i :: 0 <= i < |s| ==> !('A' <= s[i] <= 'Z') }

  predicate HasNoLower(s: string) { forall i :: 0 <= i < |s| ==> !('a' <= s[i] <= 'z') }

  /** `String.equalsIgnoreCase` restricted to ASCII case folding. */
  predicate EqualsIgnoreCase(a: string, b: string)
  {
    |a| == |b| && forall i :: 0 <= i < |a| ==> ToLowerChar(a[i]) == ToLowerChar(b[i])
  }

  // ---------------------------------------------------------------- Integer.parseInt

  predicate IsDigit(c: char) { '0' <= c <= '9' }

  /** One or more decimal digits. */
  predicate IsDigits(s: string) { |s| > 0 && forall i :: 0 <= i < |s| ==> IsDigit(s[i]) }

  function DigitsValue(s: string): nat
    requires forall i :: 0 <= i < |s| ==> IsDigit(s[i])
  {
    if s == [] then 0
    else
      assert IsDigit(s[|s| - 1]);
      DigitsValue(s[..|s| - 1]) * 10 + (s[|s| - 1] as int - '0' as int)
  }

  function ToInt32(v: int): Option<int32>
  {
    if -0x8000_0000 <= v < 0x8000_0000 then Some(v as int32) else None
  }

  /**
   * `Integer.parseInt(s)` on ASCII digits: an optional `+` or `-`, then one or more digits,
   * denoting a value in the `int` range; anything else (empty, a lone sign, blanks, overflow)
   * is a NumberFormatException, here None.
   */
  function ParseInt(s: string): (r: Option<int32>)
    ensures r.Some? ==> IsDigits(s) || (|s| > 1 && (s[0] == '+' || s[0] == '-') && IsDigits(s[1..]))
    ensures r.Some? ==> !IsTrimmable(s[0]) && !IsTrimmable(s[|s| - 1])
    ensures IsDigits(s) ==> (r.Some? <==> DigitsValue(s) < 0x8000_0000)
    ensures IsDigits(s) && r.Some? ==> r.value as int == DigitsValue(s)
    ensures |s| > 1 && s[0] == '+' && IsDigits(s[1..]) ==>
      && (r.Some? <==> DigitsValue(s[1..]) < 0x8000_0000)
      && (r.Some? ==> r.value as int == DigitsValue(s[1..]))
    ensures |s| > 1 && s[0] == '-' && IsDigits(s[1..]) ==>
      && (r.Some? <==> DigitsValue(s[1..]) <= 0x8000_0000)
      && (r.Some? ==> r.value as int == -(DigitsValue(s[1..]) as int))
  {
    if |s| > 0 && (s[0] == '+' || s[0] == '-') then
      if IsDigits(s[1..]) then
        var magnitude := DigitsValue(s[1..]);
        ToInt32(if s[0] == '-' then -(magnitude as int) else magnitude)
      else None
    else if IsDigits(s) then ToInt32(DigitsValue(s))
    else None
  }

  /** `Integer.toString` of a non-negative value. */
  function NatDigits(n: nat): (s: string)
  {
    if n < 10 then [('0' as int + n) as char]
    else NatDigits(n / 10) + [('0' as int + n % 10) as char]
  }

  /** `Integer.toString(n)`: decimal digits, with a leading `-` when negative. */
  function FormatInt(n: int32): string
  {
    if n < 0 then "-" + NatDigits(-(n as int)) else NatDigits(n as int)
  }

  lemma {:induction false} NatDigitsValue(n: nat)
    ensures IsDigits(NatDigits(n)) && DigitsValue(NatDigits(n)) == n
  {
    if n >= 10 {
      NatDigitsValue(n / 10);
      var s := NatDigits(n);
      assert s[..|s| - 1] == NatDigits(n / 10);
    }
  }

  /** `Integer.parseInt(Integer.toString(n)) == n` for every `int`. */
  lemma ParseFormatRoundTrip(n: int32)
    ensures ParseInt(FormatInt(n)) == Some(n)
  {
    if n < 0 {
      NatDigitsValue(-(n as int));
      assert FormatInt(n)[1..] == NatDigits(-(n as int));
    } else {
      NatDigitsValue(n as int);
    }
  }

  // ---------------------------------------------------------------- Boolean.parseBoolean

  /** `Boolean.parseBoolean(s)`: true exactly for a non-null "true" in any letter case. */
  function ParseBoolean(s: Option<string>): (r: bool)
    ensures r <==> s.Some? && |s.value| == 4 && ToLower(s.value) == "true"
  {
    s.Some? && EqualsIgnoreCase(s.value, "true")
  }
}
