/** The string functions of Go's standard library that the printers and parsers of the program share:
    decimal formatting and parsing, `strings.Split` on one character, `strings.TrimSpace`.
    A string is a sequence of Unicode code points. */
module Text {
  import opened Wrappers
  import Collections

  const INT64_MIN := -0x8000_0000_0000_0000
  const INT64_MAX := 0x7fff_ffff_ffff_ffff

  // ---------- decimal ----------

  predicate IsDigit(c: char) {
    '0' <= c <= '9'
  }

  predicate AllDigits(s: string) {
    forall i | 0 <= i < |s| :: IsDigit(s[i])
  }

  function Digits(n: nat): (s: string)
    ensures s != "" && AllDigits(s)
  {
    if n < 10 then [('0' as int + n) as char] else Digits(n / 10) + [('0' as int + n % 10) as char]
  }

  function DigitsValue(s: string): nat
    requires AllDigits(s)
  {
    if s == "" then 0 else DigitsValue(s[..|s| - 1]) * 10 + (s[|s| - 1] as int - '0' as int)
  }

  lemma {:induction false} DigitsRoundTrip(n: nat)
    ensures DigitsValue(Digits(n)) == n
  {
    if n < 10 {
      assert Digits(n)[..0] == "";
    } else {
      DigitsRoundTrip(n / 10);
      assert Digits(n)[..|Digits(n)| - 1] == Digits(n / 10);
    }
  }

  /** strconv.FormatInt(n, 10) */
  function FormatInt(n: int): string {
    if n < 0 then "-" + Digits(-n) else Digits(n)
  }

  /** strconv.ParseInt(s, 10, 64), and strconv.Atoi on a 64-bit platform: an optional sign, one or more
      digits, a value that fits 64 bits. */
  function ParseInt(s: string): Option<int> {
    if s == "" then None else
    var body := if s[0] == '-' || s[0] == '+' then s[1..] else s;
    if body == "" || !AllDigits(body) then None else
    var magnitude: int := DigitsValue(body);
    var v := if s[0] == '-' then -magnitude else magnitude;
    if INT64_MIN <= v <= INT64_MAX then Some(v) else None
  }

  lemma ParseFormat(n: int)
    requires INT64_MIN <= n <= INT64_MAX
    ensures ParseInt(FormatInt(n)) == Some(n)
  {
    var m := if n < 0 then -n else n;
    DigitsRoundTrip(m);
    assert IsDigit(Digits(m)[0]);
    assert n < 0 ==> FormatInt(n)[1..] == Digits(m);
  }

  lemma DigitsInjective(m: nat, n: nat)
    requires Digits(m) == Digits(n)
    ensures m == n
  {
    DigitsRoundTrip(m);
    DigitsRoundTrip(n);
  }

  /** Decimal notation: ten digits, each place worth ten times the next. */
  lemma ValueIsPositional(s: string, c: char)
    requires AllDigits(s)
    ensures IsDigit(c) <==> exists d: nat | d < 10 :: c == "0123456789"[d]
    ensures IsDigit(c) ==>
              AllDigits(s + [c]) && DigitsValue(s + [c]) == 10 * DigitsValue(s) + (c as int - '0' as int)
    ensures DigitsValue("") == 0
  {
    forall d: nat | d < 10 ensures "0123456789"[d] as int == '0' as int + d {
    }
    if IsDigit(c) {
      var d := c as int - '0' as int;
      assert 0 <= d < 10 && "0123456789"[d] == c;
      assert (s + [c])[..|s|] == s;
    }
  }

  /** ... and no zero in front of a number. */
  lemma {:induction false} NoLeadingZero(n: nat)
    ensures Digits(n)[0] == '0' <==> n == 0
    ensures Digits(0) == "0"
  {
    if n >= 10 {
      NoLeadingZero(n / 10);
    }
  }

  /** What is read as a 64-bit number, and what is refused. */
  lemma ParseIntReadsDigits(s: string)
    requires s != "" && AllDigits(s)
    ensures var v: int := DigitsValue(s);
            && ParseInt(s) == ParseInt("+" + s) == (if v <= 9223372036854775807 then Some(v) else None)
            && ParseInt("-" + s) == (if v <= 9223372036854775808 then Some(-v) else None)
  {
    assert IsDigit(s[0]);
    assert ("+" + s)[1..] == s && ("-" + s)[1..] == s;
  }

  lemma ParseIntReadsNothingElse(s: string)
    requires ParseInt(s).Some?
    ensures s != ""
    ensures AllDigits(s) || ((s[0] == '-' || s[0] == '+') && |s| > 1 && AllDigits(s[1..]))
  {
  }

  // ---------- splitting ----------

  /** strings.Split(s, sep) for a one-character separator. */
  function Split(s: string, sep: char): (parts: seq<string>)
    ensures |parts| >= 1
  {
    if s == "" then [""] else
    var rest := Split(s[1..], sep);
    if s[0] == sep then [""] + rest else [[s[0]] + rest[0]] + rest[1..]
  }

  function Joined(parts: seq<string>, sep: char): string
    requires parts != []
  {
    if |parts| == 1 then parts[0] else parts[0] + [sep] + Joined(parts[1..], sep)
  }

  /** The pieces, put together again, are the text. */
  lemma {:induction false} SplitJoins(s: string, sep: char)
    ensures Joined(Split(s, sep), sep) == s
  {
    if s != "" {
      var rest := Split(s[1..], sep);
      SplitJoins(s[1..], sep);
      if s[0] == sep {
        assert Split(s, sep)[1..] == rest;
      } else {
        assert Split(s, sep)[1..] == rest[1..];
      }
      assert s == [s[0]] + s[1..];
    }
  }

  lemma SplitOfFirst(c: char, s: string, sep: char)
    ensures Split([c] + s, sep) ==
            if c == sep then [""] + Split(s, sep) else [[c] + Split(s, sep)[0]] + Split(s, sep)[1..]
  {
    assert ([c] + s)[1..] == s;
  }

  lemma PrependToFirst(c: char, a: seq<string>, b: seq<string>)
    requires a != []
    ensures [[c] + (a + b)[0]] + (a + b)[1..] == [[c] + a[0]] + a[1..] + b
  {
  }

  /** A separator cuts the text exactly where it stands. */
  lemma {:induction false} SplitConcat(x: string, sep: char, y: string)
    ensures Split(x + [sep] + y, sep) == Split(x, sep) + Split(y, sep)
  {
    if x == "" {
      assert x + [sep] + y == [sep] + y;
    } else {
      var rest := x[1..] + [sep] + y;
      SplitConcat(x[1..], sep, y);
      SplitOfFirst(x[0], rest, sep);
      assert [x[0]] + rest == x + [sep] + y;
      PrependToFirst(x[0], Split(x[1..], sep), Split(y, sep));
      Collections.ConcatAssociates([""], Split(x[1..], sep), Split(y, sep));
    }
  }

  /** Text is one piece exactly when it holds no separator; its first piece is then the text itself. */
  lemma {:induction false} SplitWhole(s: string, sep: char)
    ensures sep !in s ==> Split(s, sep) == [s]
    ensures Split(s, sep)[0] == s <==> sep !in s
  {
    if s == "" {
    } else {
      SplitWhole(s[1..], sep);
      assert s == [s[0]] + s[1..];
      if s[0] != sep {
        var h := Split(s[1..], sep)[0];
        assert Split(s, sep)[0] == [s[0]] + h;
        assert Split(s, sep)[0][1..] == h;
      } else {
        assert Split(s, sep)[0] == "";
      }
    }
  }

  lemma {:induction false} SplitCount(s: string, sep: char)
    ensures |Split(s, sep)| == multiset(s)[sep] + 1
  {
    if s != "" {
      SplitCount(s[1..], sep);
      assert s == [s[0]] + s[1..];
    }
  }

  /** No piece holds the separator. */
  lemma {:induction false} PiecesHoldNoSeparator(s: string, sep: char)
    ensures forall p | p in Split(s, sep) :: sep !in p
  {
    if s != "" {
      PiecesHoldNoSeparator(s[1..], sep);
      var rest := Split(s[1..], sep);
      assert rest[0] in rest;
      forall p | p in Split(s, sep) ensures sep !in p {
        if p in rest {
        } else if s[0] != sep {
          assert p == [s[0]] + rest[0];
        }
      }
    }
  }

  // ---------- trimming ----------

  /** unicode.IsSpace */
  predicate IsSpace(c: char) {
    var u := c as int;
    || 0x09 <= u <= 0x0d || u == 0x20 || u == 0x85 || u == 0xa0 || u == 0x1680
    || 0x2000 <= u <= 0x200a || u == 0x2028 || u == 0x2029 || u == 0x202f || u == 0x205f || u == 0x3000
  }

  function TrimLeft(s: string): (t: string)
    ensures t != "" ==> !IsSpace(t[0])
  {
    if s != "" && IsSpace(s[0]) then TrimLeft(s[1..]) else s
  }

  function TrimRight(s: string): (t: string)
    ensures t != "" ==> !IsSpace(t[|t| - 1])
    ensures t <= s
  {
    if s != "" && IsSpace(s[|s| - 1]) then TrimRight(s[..|s| - 1]) else s
  }

  lemma {:induction false} TrimLeftCuts(s: string) returns (cut: string)
    ensures s == cut + TrimLeft(s) && forall c | c in cut :: IsSpace(c)
  {
    cut := "";
    if s != "" && IsSpace(s[0]) {
      cut := TrimLeftCuts(s[1..]);
      cut := [s[0]] + cut;
    }
  }

  lemma {:induction false} TrimRightCuts(s: string) returns (cut: string)
    ensures s == TrimRight(s) + cut && forall c | c in cut :: IsSpace(c)
  {
    cut := "";
    if s != "" && IsSpace(s[|s| - 1]) {
      cut := TrimRightCuts(s[..|s| - 1]);
      cut := cut + [s[|s| - 1]];
    }
  }

  /** Trimming cuts blanks off both ends, all of them, and nothing else. */
  lemma TrimCutsSpaces(s: string) returns (before: string, behind: string)
    ensures s == before + Trim(s) + behind
    ensures forall c | c in before + behind :: IsSpace(c)
    ensures Trim(s) != "" ==> !IsSpace(Trim(s)[0]) && !IsSpace(Trim(s)[|Trim(s)| - 1])
  {
    before := TrimLeftCuts(s);
    behind := TrimRightCuts(TrimLeft(s));
  }

  /** The ASCII blanks are tab, line feed, vertical tab, form feed, carriage return and space. */
  lemma AsciiSpaces(c: char)
    requires c as int < 128
    ensures IsSpace(c) <==> c == '\t' || c == '\n' || c == '\U{0B}' || c == '\U{0C}' || c == '\r' || c == ' '
  {
  }

  /** strings.TrimSpace */
  function Trim(s: string): (t: string)
    ensures t != "" ==> !IsSpace(t[0]) && !IsSpace(t[|t| - 1])
  {
    TrimRight(TrimLeft(s))
  }
}
