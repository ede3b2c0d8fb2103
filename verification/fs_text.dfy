/**
 * Text algebra behind the file server's request protocol: splitting a text
 * at a separator character and joining the pieces back, and the decimal
 * notation of block numbers (`atoi` on a digit string, `std::to_string` on
 * an unsigned value).
 */
module FsText {

  // ---------------------------------------------------------------------
  // Splitting and joining

  /** The pieces of `t` between occurrences of `sep`, built one character at
      a time as the server's scanning loops do: a separator closes the current
      piece and opens an empty one, any other character extends the last piece. */
  function SplitOn(t: string, sep: char): (r: seq<string>)
    ensures |r| >= 1
    ensures forall k :: 0 <= k < |r| ==> sep !in r[k]
    decreases |t|
  {
    if t == [] then [""]
    else
      var init := SplitOn(t[..|t| - 1], sep);
      if t[|t| - 1] == sep then init + [""]
      else init[..|init| - 1] + [init[|init| - 1] + [t[|t| - 1]]]
  }

  /** The pieces written one after another with `sep` between neighbours. */
  function Join(parts: seq<string>, sep: char): string
    requires |parts| >= 1
  {
    if |parts| == 1 then parts[0]
    else Join(parts[..|parts| - 1], sep) + [sep] + parts[|parts| - 1]
  }

  lemma JoinExtendLast(parts: seq<string>, sep: char, c: char)
    requires |parts| >= 1
    ensures Join(parts[..|parts| - 1] + [parts[|parts| - 1] + [c]], sep) == Join(parts, sep) + [c]
  {
    var q := parts[..|parts| - 1] + [parts[|parts| - 1] + [c]];
    assert q[..|q| - 1] == parts[..|parts| - 1];
  }

  /** One more piece adds a separator and the piece. */
  lemma JoinSnoc(parts: seq<string>, w: string, sep: char)
    requires |parts| >= 1
    ensures Join(parts + [w], sep) == Join(parts, sep) + [sep] + w
  {
    var q := parts + [w];
    assert q[..|q| - 1] == parts;
  }

  /** Joining the pieces of a text gives the text back. */
  lemma {:induction false} JoinSplit(t: string, sep: char)
    ensures Join(SplitOn(t, sep), sep) == t
    decreases |t|
  {
    if t != [] {
      var u := t[..|t| - 1];
      JoinSplit(u, sep);
      var init := SplitOn(u, sep);
      assert t == u + [t[|t| - 1]];
      if t[|t| - 1] == sep {
        var r := init + [""];
        assert r[..|r| - 1] == init;
      } else {
        JoinExtendLast(init, sep, t[|t| - 1]);
      }
    }
  }

  /** A text without the separator is a single piece. */
  lemma {:induction false} SplitSingle(w: string, sep: char)
    requires sep !in w
    ensures SplitOn(w, sep) == [w]
    decreases |w|
  {
    if w != [] {
      var v := w[..|w| - 1];
      SplitSingle(v, sep);
      assert v + [w[|w| - 1]] == w;
    }
  }

  /** Appending a separator and a separator-free word adds exactly one piece. */
  lemma {:induction false} SplitAppendPiece(t: string, w: string, sep: char)
    requires sep !in w
    ensures SplitOn(t + [sep] + w, sep) == SplitOn(t, sep) + [w]
    decreases |w|
  {
    var x := t + [sep] + w;
    if w == [] {
      assert x[..|x| - 1] == t;
    } else {
      var v := w[..|w| - 1];
      SplitAppendPiece(t, v, sep);
      assert x[..|x| - 1] == t + [sep] + v;
      assert v + [w[|w| - 1]] == w;
      var s := SplitOn(t, sep) + [v];
      assert s[..|s| - 1] == SplitOn(t, sep);
    }
  }

  lemma InitLast(q: seq<string>)
    requires |q| >= 1
    ensures q[..|q| - 1] + [q[|q| - 1]] == q
  {
  }

  /** Splitting separator-free pieces after joining them gives the pieces back. */
  lemma {:induction false} SplitJoin(parts: seq<string>, sep: char)
    requires |parts| >= 1
    requires forall k :: 0 <= k < |parts| ==> sep !in parts[k]
    ensures SplitOn(Join(parts, sep), sep) == parts
    decreases |parts|
  {
    if |parts| == 1 {
      SplitSingle(parts[0], sep);
    } else {
      var init := parts[..|parts| - 1];
      SplitJoin(init, sep);
      SplitAppendPiece(Join(init, sep), parts[|parts| - 1], sep);
      InitLast(parts);
    }
  }

  /** Extending a text never changes its pieces before the last one. */
  lemma {:induction false} SplitKeepsPrefix(a: string, b: string, sep: char)
    ensures |SplitOn(a + b, sep)| >= |SplitOn(a, sep)|
    ensures forall k :: 0 <= k < |SplitOn(a, sep)| - 1 ==> SplitOn(a + b, sep)[k] == SplitOn(a, sep)[k]
    decreases |b|
  {
    if b == [] {
      assert a + b == a;
    } else {
      var b' := b[..|b| - 1];
      SplitKeepsPrefix(a, b', sep);
      var x := a + b;
      assert x[..|x| - 1] == a + b';
    }
  }

  // ---------------------------------------------------------------------
  // Decimal notation

  predicate IsDigit(c: char) {
    '0' <= c <= '9'
  }

  predicate AllDigits(s: string) {
    forall k :: 0 <= k < |s| ==> IsDigit(s[k])
  }

  function DigitValue(c: char): nat
    requires IsDigit(c)
  {
    c as int - '0' as int
  }

  function DigitChar(d: nat): char
    requires d < 10
  {
    ('0' as int + d) as char
  }

  /** The number a digit string denotes (`atoi` without its overflow). */
  function Value(s: string): nat
    requires AllDigits(s)
    decreases |s|
  {
    if s == [] then 0 else 10 * Value(s[..|s| - 1]) + DigitValue(s[|s| - 1])
  }

  /** `std::to_string` of an unsigned value: nonempty, all digits, and a
      leading zero only in the notation of zero itself. */
  function Decimal(n: nat): (r: string)
    ensures |r| >= 1 && AllDigits(r)
    ensures r[0] == '0' <==> n == 0
  {
    if n < 10 then [DigitChar(n)] else Decimal(n / 10) + [DigitChar(n % 10)]
  }

  /** The digit strings `std::to_string` can produce. */
  predicate Canonical(s: string) {
    |s| >= 1 && AllDigits(s) && (s[0] == '0' ==> |s| == 1)
  }

  lemma {:induction false} ValueOfDecimal(n: nat)
    ensures Value(Decimal(n)) == n
  {
    var r := Decimal(n);
    if n < 10 {
      assert r[..|r| - 1] == [];
    } else {
      ValueOfDecimal(n / 10);
      assert r[..|r| - 1] == Decimal(n / 10);
    }
  }

  lemma {:induction false} ValuePositive(s: string)
    requires |s| >= 1 && AllDigits(s) && s[0] != '0'
    ensures Value(s) >= 1
    decreases |s|
  {
    if |s| > 1 {
      ValuePositive(s[..|s| - 1]);
    }
  }

  /** Every canonical digit string is the notation of its value. */
  lemma {:induction false} DecimalOfValue(s: string)
    requires Canonical(s)
    ensures Decimal(Value(s)) == s
    decreases |s|
  {
    var p := s[..|s| - 1];
    var d := DigitValue(s[|s| - 1]);
    assert DigitChar(d) == s[|s| - 1];
    if |s| == 1 {
      assert p == [];
    } else {
      ValuePositive(p);
      DecimalOfValue(p);
      assert p + [s[|s| - 1]] == s;
    }
  }
}
