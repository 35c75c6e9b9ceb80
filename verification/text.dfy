/**
 * The string functions of the Go standard library that the ledger relies on:
 * decimal formatting of integers (`fmt`'s `%d`, `strconv.FormatInt`), decimal
 * parsing (`strconv.Atoi`) and `strings.Split`.  Strings are sequences of
 * characters, one character per byte.
 */
module Text {
  import opened Base

  predicate IsDigit(c: char) { '0' <= c <= '9' }

  predicate AllDigits(s: string) { forall i :: 0 <= i < |s| ==> IsDigit(s[i]) }

  function DigitChar(d: nat): (c: char)
    requires d < 10
    ensures IsDigit(c)
  {
    (d + '0' as int) as char
  }

  function DigitValue(c: char): nat
    requires IsDigit(c)
  {
    c as int - '0' as int
  }

  /** The decimal digits of a natural number, most significant first, without
      leading zeros. */
  function NatDigits(n: nat): (s: string)
    ensures |s| >= 1 && AllDigits(s)
    ensures n >= 10 ==> |s| >= 2
    decreases n
  {
    if n < 10 then [DigitChar(n)] else NatDigits(n / 10) + [DigitChar(n % 10)]
  }

  /** `fmt.Sprintf("%d", n)` and `strconv.FormatInt(n, 10)`. */
  function FormatInt(n: int): string
  {
    if n < 0 then "-" + NatDigits(-n) else NatDigits(n)
  }

  /** The value of a string of decimal digits. */
  function DigitsValue(s: string): nat
    requires AllDigits(s)
    decreases |s|
  {
    if s == [] then 0 else DigitsValue(s[..|s| - 1]) * 10 + DigitValue(s[|s| - 1])
  }

  /** `strconv.Atoi`: an optional sign followed by at least one decimal digit,
      whose value fits Go's 64-bit `int`; anything else is an error. */
  function Atoi(s: string): Result<int, RepoError>
  {
    var signed := |s| > 0 && (s[0] == '+' || s[0] == '-');
    var body := if signed then s[1..] else s;
    if body == [] || !AllDigits(body) then Err(NotAnInteger)
    else
      var v: int := if signed && s[0] == '-' then -(DigitsValue(body) as int) else DigitsValue(body);
      if IsInt64(v) then Ok(v) else Err(NotAnInteger)
  }

  /** Reading the digits of `n` gives back `n`. */
  lemma {:induction false} DigitsValueOfNatDigits(n: nat)
    ensures DigitsValue(NatDigits(n)) == n
    decreases n
  {
    var s := NatDigits(n);
    if n >= 10 {
      DigitsValueOfNatDigits(n / 10);
      assert s[..|s| - 1] == NatDigits(n / 10);
    }
  }

  lemma NatDigitsInjective(m: nat, n: nat)
    requires NatDigits(m) == NatDigits(n)
    ensures m == n
  {
    DigitsValueOfNatDigits(m);
    DigitsValueOfNatDigits(n);
  }

  /** A printed integer starts with a minus sign exactly when it is negative. */
  lemma FormatIntSign(n: int)
    ensures |FormatInt(n)| >= 1
    ensures FormatInt(n)[0] == '-' <==> n < 0
  {
    if n >= 0 {
      assert IsDigit(NatDigits(n)[0]);
    }
  }

  /** No two integers print the same way. */
  lemma FormatIntInjective(m: int, n: int)
    requires FormatInt(m) == FormatInt(n)
    ensures m == n
  {
    FormatIntSign(m);
    FormatIntSign(n);
    if m < 0 {
      assert NatDigits(-m) == FormatInt(m)[1..] == NatDigits(-n);
      NatDigitsInjective(-m, -n);
    } else {
      NatDigitsInjective(m, n);
    }
  }

  /** A printed integer contains digits and possibly a leading minus sign. */
  lemma FormatIntAlphabet(n: int, i: nat)
    requires i < |FormatInt(n)|
    ensures IsDigit(FormatInt(n)[i]) || (i == 0 && n < 0 && FormatInt(n)[i] == '-')
  {
    if n < 0 && i > 0 {
      assert FormatInt(n)[i] == NatDigits(-n)[i - 1];
    }
  }

  /** `strconv.Atoi` reads back what `strconv.FormatInt` wrote, for every Go `int`. */
  lemma AtoiFormatInt(n: int)
    requires IsInt64(n)
    ensures Atoi(FormatInt(n)) == Ok(n)
  {
    var s := FormatInt(n);
    if n < 0 {
      assert s[1..] == NatDigits(-n);
      DigitsValueOfNatDigits(-n);
    } else {
      assert IsDigit(s[0]);
      DigitsValueOfNatDigits(n);
    }
  }

  /** The number of characters before the first `sep` (all of them if none). */
  function HeadLength(s: string, sep: char): nat
    decreases |s|
  {
    if s == [] || s[0] == sep then 0 else 1 + HeadLength(s[1..], sep)
  }

  /** The number of characters after the last `sep` (all of them if none). */
  function TailLength(s: string, sep: char): nat
    decreases |s|
  {
    if s == [] || s[|s| - 1] == sep then 0 else 1 + TailLength(s[..|s| - 1], sep)
  }

  lemma {:induction false} HeadLengthOfField(h: string, t: string, sep: char)
    requires sep !in h
    ensures HeadLength(h + [sep] + t, sep) == |h|
    decreases |h|
  {
    if h != [] {
      assert (h + [sep] + t)[1..] == h[1..] + [sep] + t;
      HeadLengthOfField(h[1..], t, sep);
    }
  }

  lemma {:induction false} TailLengthOfField(h: string, t: string, sep: char)
    requires sep !in t
    ensures TailLength(h + [sep] + t, sep) == |t|
    decreases |t|
  {
    if t != [] {
      var s := h + [sep] + t;
      assert s[..|s| - 1] == h + [sep] + t[..|t| - 1];
      TailLengthOfField(h, t[..|t| - 1], sep);
    }
  }

  /** Two strings built as `head + [sep] + tail`, where neither head contains
      `sep`, have the same head and the same tail. */
  lemma HeadFieldUnique(h1: string, t1: string, h2: string, t2: string, sep: char)
    requires sep !in h1 && sep !in h2
    requires h1 + [sep] + t1 == h2 + [sep] + t2
    ensures h1 == h2 && t1 == t2
  {
    var s := h1 + [sep] + t1;
    HeadLengthOfField(h1, t1, sep);
    HeadLengthOfField(h2, t2, sep);
    assert h1 == s[..|h1|] == h2;
    assert t1 == s[|h1| + 1..] == t2;
  }

  /** Two strings built as `head + [sep] + tail`, where neither tail contains
      `sep`, have the same head and the same tail. */
  lemma TailFieldUnique(h1: string, t1: string, h2: string, t2: string, sep: char)
    requires sep !in t1 && sep !in t2
    requires h1 + [sep] + t1 == h2 + [sep] + t2
    ensures h1 == h2 && t1 == t2
  {
    var s := h1 + [sep] + t1;
    TailLengthOfField(h1, t1, sep);
    TailLengthOfField(h2, t2, sep);
    assert t1 == s[|s| - |t1|..] == t2;
    assert h1 == s[..|h1|] == h2;
  }

  /** `strings.Split(s, sep)` for a one-character separator: the maximal
      pieces of `s` between separators; the empty string gives one empty piece. */
  function Split(s: string, sep: char): (parts: seq<string>)
    ensures |parts| >= 1
    decreases |s|
  {
    if s == [] then [""]
    else
      var rest := Split(s[1..], sep);
      if s[0] == sep then [""] + rest else [[s[0]] + rest[0]] + rest[1..]
  }

  /** `strings.Join(parts, sep)`. */
  function Join(parts: seq<string>, sep: char): string
    requires |parts| >= 1
    decreases |parts|
  {
    if |parts| == 1 then parts[0] else parts[0] + [sep] + Join(parts[1..], sep)
  }

  /** Joining the pieces again gives back the split string. */
  lemma {:induction false} JoinSplit(s: string, sep: char)
    ensures Join(Split(s, sep), sep) == s
    decreases |s|
  {
    if s != [] {
      var rest := Split(s[1..], sep);
      JoinSplit(s[1..], sep);
      if s[0] == sep {
        assert Split(s, sep)[1..] == rest;
      } else {
        var parts := Split(s, sep);
        if |rest| == 1 {
          assert parts == [[s[0]] + rest[0]];
        } else {
          assert parts[1..] == rest[1..];
          assert Join(rest, sep) == rest[0] + [sep] + Join(rest[1..], sep);
        }
      }
    }
  }

  /** No piece contains the separator. */
  lemma {:induction false} SplitPiecesHaveNoSeparator(s: string, sep: char)
    ensures forall i :: 0 <= i < |Split(s, sep)| ==> sep !in Split(s, sep)[i]
    decreases |s|
  {
    if s != [] {
      SplitPiecesHaveNoSeparator(s[1..], sep);
      var rest := Split(s[1..], sep);
      if s[0] != sep {
        var parts := Split(s, sep);
        forall i | 0 <= i < |parts| ensures sep !in parts[i] {
          if i == 0 {
            assert parts[0] == [s[0]] + rest[0];
          } else {
            assert parts[i] == rest[i];
          }
        }
      }
    }
  }

  /** A string that starts with the separator splits into an empty first piece. */
  lemma SplitLeadingSeparator(s: string, sep: char)
    requires |s| > 0 && s[0] == sep
    ensures Split(s, sep)[0] == ""
  {
  }
}
