/**
 The token shapes the engine's regular expressions accept, as predicates over the
 matched text, and the subset types of matches that satisfy them. The IPv4, IPv6,
 URL and domain expressions are the same in both variants of the engine.
 */
module Shapes {
  import opened Text

  /** One octet: `25[0-5]|2[0-4][0-9]|1[0-9][0-9]|[1-9]?[0-9]`, alternative by alternative. */
  predicate IsOctet(s: string) {
    || (|s| == 3 && s[0] == '2' && s[1] == '5' && '0' <= s[2] <= '5')
    || (|s| == 3 && s[0] == '2' && '0' <= s[1] <= '4' && IsDigit(s[2]))
    || (|s| == 3 && s[0] == '1' && IsDigit(s[1]) && IsDigit(s[2]))
    || (|s| == 2 && '1' <= s[0] <= '9' && IsDigit(s[1]))
    || (|s| == 1 && IsDigit(s[0]))
  }

  predicate AllDigits(s: string) {
    forall i :: 0 <= i < |s| ==> IsDigit(s[i])
  }

  /** The decimal value of a digit string. */
  function DecimalValue(s: string): nat
    requires AllDigits(s)
  {
    if |s| == 0 then 0
    else DecimalValue(s[..|s| - 1]) * 10 + (s[|s| - 1] as int - '0' as int)
  }

  /**
   The octet grammar accepts exactly the decimal numerals of 0 to 255 without a
   leading zero.
   */
  lemma OctetValue(s: string)
    ensures IsOctet(s) <==>
              && 1 <= |s| <= 3
              && AllDigits(s)
              && (|s| > 1 ==> s[0] != '0')
              && DecimalValue(s) <= 255
  {
    if 1 <= |s| <= 3 && AllDigits(s) {
      var d0 := s[0] as int - '0' as int;
      assert s[..1][0] == s[0];
      assert DecimalValue(s[..1]) == d0;
      if |s| >= 2 {
        var d1 := s[1] as int - '0' as int;
        assert s[..2][..1] == s[..1];
        assert DecimalValue(s[..2]) == d0 * 10 + d1;
        if |s| == 3 {
          var d2 := s[2] as int - '0' as int;
          assert s[..2] == s[..|s| - 1];
          assert DecimalValue(s) == d0 * 100 + d1 * 10 + d2;
        } else {
          assert s[..1] == s[..|s| - 1];
        }
      }
    }
  }

  /** `(octet\.){3}octet`: four octets joined by three dots. */
  predicate IsIPv4(s: string) {
    var parts := Split(s, '.');
    |parts| == 4 && forall i :: 0 <= i < 4 ==> IsOctet(parts[i])
  }

  /** A group of `([0-9a-fA-F]){1,4}`. */
  predicate IsHextet(g: string) {
    1 <= |g| <= 4 && forall j :: 0 <= j < |g| ==> IsHexDigit(g[j])
  }

  /** `((hex){1,4}\:){7}(hex){1,4}`: eight groups joined by seven colons; no `::` form. */
  predicate IsIPv6(s: string) {
    var groups := Split(s, ':');
    |groups| == 8 && forall i :: 0 <= i < 8 ==> IsHextet(groups[i])
  }

  /**
   The part of a domain match before its dot. The expression's repeated unit is an
   alphanumeric, or two letters optionally followed by a hyphen, taken 1 to 63 times.
   */
  predicate IsDomainLabel(l: string) {
    && 1 <= |l| <= 189
    && IsAlnum(l[0])
    && forall j :: 0 <= j < |l| ==> IsAlnum(l[j]) || l[j] == '-'
  }

  /** `[A-Za-z]{2,6}`. */
  predicate IsDomainTail(t: string) {
    2 <= |t| <= 6 && forall j :: 0 <= j < |t| ==> IsLetter(t[j])
  }

  /** A label, a dot, then 2 to 6 letters: the expression holds exactly one `\.`. */
  predicate IsDomain(s: string) {
    var parts := Split(s, '.');
    |parts| == 2 && IsDomainLabel(parts[0]) && IsDomainTail(parts[1])
  }

  /**
   A character of the URL expression's class: letters, digits, the range `$-_`
   (0x24 to 0x5F, which takes in digits, upper case and most punctuation),
   `@.&+`, `!*(),`; a percent-encoded octet is made of such characters too.
   */
  predicate IsUrlChar(c: char) {
    IsAlnum(c) || ('$' <= c <= '_') || c in "@.&+!*(),"
  }

  /** `http[s]?://` followed by one or more characters of the class. */
  predicate IsUrl(s: string) {
    var n := if HasPrefix(s, "https://") then 8 else 7;
    && (HasPrefix(s, "http://") || HasPrefix(s, "https://"))
    && n < |s|
    && forall j :: n <= j < |s| ==> IsUrlChar(s[j])
  }

  /** The pieces of an IPv4 match: four numerals of 0 to 255 without leading zeros. */
  lemma IPv4Octets(s: string)
    requires IsIPv4(s)
    ensures var p := Split(s, '.');
            && s == p[0] + "." + p[1] + "." + p[2] + "." + p[3]
            && forall i :: 0 <= i < 4 ==>
                 && AllDigits(p[i]) && 1 <= |p[i]| <= 3
                 && (|p[i]| > 1 ==> p[i][0] != '0')
                 && DecimalValue(p[i]) <= 255
  {
    var p := Split(s, '.');
    JoinSplit(s, '.');
    JoinHead(p, '.');
    JoinHead(p[1..], '.');
    JoinHead(p[2..], '.');
    assert p[1..][1..] == p[2..] && p[2..][1..] == p[3..];
    assert Join(p[3..], '.') == p[3];
    forall i | 0 <= i < 4 {
      OctetValue(p[i]);
    }
  }

  /** An IPv6 match holds exactly seven colons, and every other character is a hex digit. */
  lemma IPv6Groups(s: string)
    requires IsIPv6(s)
    ensures multiset(s)[':'] == 7
    ensures forall j :: 0 <= j < |s| ==> s[j] == ':' || IsHexDigit(s[j])
  {
    var g := Split(s, ':');
    SplitCount(s, ':');
    JoinSplit(s, ':');
    forall j | 0 <= j < |s|
      ensures s[j] == ':' || IsHexDigit(s[j])
    {
      JoinChars(g, ':', s[j]);
    }
  }

  /** No text is both an IPv4 and an IPv6 match: IPv4 has no colon. */
  lemma IPShapesDisjoint(s: string)
    requires IsIPv4(s)
    ensures !IsIPv6(s)
  {
    var p := Split(s, '.');
    JoinSplit(s, '.');
    if ':' in s {
      JoinChars(p, '.', ':');
    }
    assert multiset(s)[':'] == 0;
    SplitCount(s, ':');
  }

  /** A domain match is its label, a dot, and a tail of 2 to 6 letters. */
  lemma DomainParts(s: string)
    requires IsDomain(s)
    ensures var p := Split(s, '.');
            && s == p[0] + "." + p[1]
            && HasSuffix(s, "." + p[1])
  {
    JoinSplit(s, '.');
  }

  /** Lower-casing keeps the domain shape (a dot is not a letter). */
  lemma DomainLower(s: string)
    requires IsDomain(s)
    ensures IsDomain(Lower(s))
  {
    SplitLower(s, '.');
  }

  /** A URL match never holds `#`, `"`, a space or a `~`: a fragment never reaches the parser. */
  lemma UrlExcludes(s: string)
    requires IsUrl(s)
    ensures forall j :: 0 <= j < |s| ==> s[j] !in "#\" ~"
  {
    var n := if HasPrefix(s, "https://") then 8 else 7;
    assert forall j :: 0 <= j < n ==> s[j] == s[..n][j];
  }

  /** Four `sep`-free pieces joined by `sep` split back into those four. */
  lemma SplitFour(a: string, b: string, c: string, d: string, sep: char)
    requires sep !in a && sep !in b && sep !in c && sep !in d
    ensures Split(a + [sep] + b + [sep] + c + [sep] + d, sep) == [a, b, c, d]
  {
    var bcd := b + [sep] + c + [sep] + d;
    var s := a + [sep] + bcd;
    assert a + [sep] + b + [sep] + c + [sep] + d == s;
    assert Split(s, sep) == [a] + [b, c, d] by {
      SplitThree(b, c, d, sep);
      SplitPiece(a, bcd, sep);
    }
  }

  lemma SplitThree(b: string, c: string, d: string, sep: char)
    requires sep !in b && sep !in c && sep !in d
    ensures Split(b + [sep] + c + [sep] + d, sep) == [b, c, d]
  {
    var cd := c + [sep] + d;
    assert Split(cd, sep) == [c, d] by {
      SplitSingle(d, sep);
      SplitPiece(c, d, sep);
    }
    assert b + [sep] + c + [sep] + d == b + [sep] + cd;
    assert Split(b + [sep] + cd, sep) == [b] + [c, d] by {
      SplitPiece(b, cd, sep);
    }
  }

  /**
   The octet grammar rejects 256 and accepts 25: without word boundaries the
   expression finds `10.0.0.25` inside `10.0.0.256`.
   */
  lemma OctetBoundary()
    ensures IsIPv4("192.168.1.1")
    ensures !IsIPv4("10.0.0.256")
    ensures IsIPv4("10.0.0.25")
  {
    DottedQuad("192", "168", "1", "1");
    assert "192" + "." + "168" + "." + "1" + "." + "1" == "192.168.1.1";
    DottedQuad("10", "0", "0", "256");
    assert "10" + "." + "0" + "." + "0" + "." + "256" == "10.0.0.256";
    DottedQuad("10", "0", "0", "25");
    assert "10" + "." + "0" + "." + "0" + "." + "25" == "10.0.0.25";
  }

  /** Four dot-free pieces make an IPv4 match exactly when all four are octets. */
  lemma DottedQuad(a: string, b: string, c: string, d: string)
    requires '.' !in a && '.' !in b && '.' !in c && '.' !in d
    ensures IsIPv4(a + "." + b + "." + c + "." + d) <==> IsOctet(a) && IsOctet(b) && IsOctet(c) && IsOctet(d)
  {
    SplitFour(a, b, c, d, '.');
    var p := Split(a + "." + b + "." + c + "." + d, '.');
    assert p[0] == a && p[1] == b && p[2] == c && p[3] == d;
  }
}
