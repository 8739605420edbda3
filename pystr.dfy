/**
 * The handful of Python `str` operations the workspace code relies on, with
 * Python's semantics: `split(sep)`, `split()`, `strip(chars)`,
 * `replace(old, new)`, `filter(bool, ...)` over strings and the decimal
 * rendering of a non-negative integer.
 */
module PyStr {

  /** `sep.join(parts)` for a one-character separator. */
  function Join(parts: seq<string>, sep: char): string
  {
    if |parts| == 0 then ""
    else if |parts| == 1 then parts[0]
    else parts[0] + [sep] + Join(parts[1..], sep)
  }

  /**
   * `s.split(sep)` for a one-character separator: the pieces between
   * separators, so there is always one piece more than there are separators.
   */
  function Split(s: string, sep: char): (parts: seq<string>)
    ensures |parts| >= 1
    ensures forall i :: 0 <= i < |parts| ==> sep !in parts[i]
    ensures Join(parts, sep) == s
    ensures |parts[0]| <= |s| && parts[0] == s[..|parts[0]|]
  {
    if s == [] then [""]
    else if s[0] == sep then
      var rest := Split(s[1..], sep);
      assert Join([""] + rest, sep) == [sep] + Join(rest, sep) by {
        assert ([""] + rest)[1..] == rest;
      }
      [""] + rest
    else
      var rest := Split(s[1..], sep);
      var parts := [[s[0]] + rest[0]] + rest[1..];
      assert parts[1..] == rest[1..];
      assert Join(parts, sep) == [s[0]] + Join(rest, sep);
      assert [s[0]] + s[1..] == s;
      parts
  }

  /** Splitting a string that holds no separator gives that string back whole. */
  lemma {:induction false} SplitNoSep(w: string, sep: char)
    requires sep !in w
    ensures Split(w, sep) == [w]
  {
    if w != [] {
      SplitNoSep(w[1..], sep);
      assert [w[0]] + w[1..] == w;
    }
  }

  /** A piece free of separators followed by a separator splits off as the first piece. */
  lemma {:induction false} SplitPrefix(w: string, t: string, sep: char)
    requires sep !in w
    ensures Split(w + [sep] + t, sep) == [w] + Split(t, sep)
  {
    if w == [] {
      assert w + [sep] + t == [sep] + t;
      assert ([sep] + t)[1..] == t;
    } else {
      assert (w + [sep] + t)[1..] == w[1..] + [sep] + t;
      SplitPrefix(w[1..], t, sep);
      assert [w[0]] + w[1..] == w;
    }
  }

  /** Round trip: splitting a join of separator-free pieces recovers the pieces. */
  lemma {:induction false} SplitJoin(parts: seq<string>, sep: char)
    requires |parts| >= 1
    requires forall i :: 0 <= i < |parts| ==> sep !in parts[i]
    ensures Split(Join(parts, sep), sep) == parts
  {
    if |parts| == 1 {
      SplitNoSep(parts[0], sep);
    } else {
      SplitJoin(parts[1..], sep);
      SplitPrefix(parts[0], Join(parts[1..], sep), sep);
      assert [parts[0]] + parts[1..] == parts;
    }
  }

  /** `list(filter(bool, parts))`: the non-empty pieces, in order. */
  function NonEmpty(parts: seq<string>): (r: seq<string>)
    ensures |r| <= |parts|
    ensures forall x :: x in r <==> x in parts && x != ""
  {
    if parts == [] then []
    else
      var rest := NonEmpty(parts[1..]);
      assert forall x :: x in parts <==> x == parts[0] || x in parts[1..];
      (if parts[0] == "" then [] else [parts[0]]) + rest
  }

  /** The filter keeps every non-empty string as often as it occurs. */
  lemma {:induction false} NonEmptyMultiset(parts: seq<string>)
    ensures multiset(NonEmpty(parts)) == multiset(parts)["" := 0]
  {
    if parts != [] {
      NonEmptyMultiset(parts[1..]);
      assert parts == [parts[0]] + parts[1..];
    }
  }

  /** Filtering a concatenation filters each half and keeps them in order. */
  lemma {:induction false} NonEmptyAppend(a: seq<string>, b: seq<string>)
    ensures NonEmpty(a + b) == NonEmpty(a) + NonEmpty(b)
  {
    if a == [] {
      assert a + b == b;
    } else {
      assert (a + b)[1..] == a[1..] + b;
      NonEmptyAppend(a[1..], b);
    }
  }

  /** Filtering strings that are all non-empty keeps every one of them, in order. */
  lemma {:induction false} NonEmptyKeepsAll(parts: seq<string>)
    requires forall i :: 0 <= i < |parts| ==> parts[i] != ""
    ensures NonEmpty(parts) == parts
  {
    if parts != [] {
      NonEmptyKeepsAll(parts[1..]);
      assert [parts[0]] + parts[1..] == parts;
    }
  }

  /** Python's `str.isspace` for one character: the separators of `split()`. */
  predicate IsSpace(c: char)
  {
    || c == ' '
    || '\t' <= c <= '\r'
    || '\U{1c}' <= c <= '\U{1f}'
    || c == '\U{85}'
    || c == '\U{a0}'
    || c == '\U{1680}'
    || '\U{2000}' <= c <= '\U{200a}'
    || c == '\U{2028}'
    || c == '\U{2029}'
    || c == '\U{202f}'
    || c == '\U{205f}'
    || c == '\U{3000}'
  }

  /** A token of `split()`: non-empty and free of whitespace. */
  predicate IsWord(w: string)
  {
    w != [] && forall j :: 0 <= j < |w| ==> !IsSpace(w[j])
  }

  /** The longest whitespace-free prefix of `s`. */
  function Token(s: string): (w: string)
    ensures |w| <= |s| && w == s[..|w|]
    ensures forall j :: 0 <= j < |w| ==> !IsSpace(w[j])
    ensures |w| == |s| || IsSpace(s[|w|])
  {
    if s == [] || IsSpace(s[0]) then []
    else
      var rest := Token(s[1..]);
      assert [s[0]] + s[1..] == s;
      [s[0]] + rest
  }

  /**
   * `s.split()` with no argument: the maximal runs of non-whitespace, so
   * leading, trailing and repeated whitespace yield no empty tokens.
   */
  function Words(s: string): (ws: seq<string>)
    ensures forall i :: 0 <= i < |ws| ==> IsWord(ws[i])
    decreases |s|
  {
    if s == [] then []
    else if IsSpace(s[0]) then Words(s[1..])
    else
      var w := Token(s);
      [w] + Words(s[|w|..])
  }

  /** A word followed by whitespace (or nothing) is the first token. */
  lemma {:induction false} TokenOfWord(w: string, t: string)
    requires IsWord(w)
    requires t == [] || IsSpace(t[0])
    ensures Token(w + t) == w
  {
    if |w| > 1 {
      assert (w + t)[1..] == w[1..] + t;
      TokenOfWord(w[1..], t);
      assert [w[0]] + w[1..] == w;
    } else {
      assert (w + t)[1..] == t;
    }
  }

  /** Round trip: `' '.join(ws).split() == ws` for whitespace-free non-empty words. */
  lemma {:induction false} WordsJoin(ws: seq<string>)
    requires forall i :: 0 <= i < |ws| ==> IsWord(ws[i])
    ensures Words(Join(ws, ' ')) == ws
  {
    if |ws| == 1 {
      TokenOfWord(ws[0], []);
      assert ws[0] + [] == ws[0];
      assert ws[0][|ws[0]|..] == [];
    } else if |ws| > 1 {
      var s := Join(ws, ' ');
      var rest := Join(ws[1..], ' ');
      assert s == ws[0] + ([' '] + rest);
      TokenOfWord(ws[0], [' '] + rest);
      assert s[|ws[0]|..] == [' '] + rest;
      assert ([' '] + rest)[1..] == rest;
      WordsJoin(ws[1..]);
      assert [ws[0]] + ws[1..] == ws;
    }
  }

  /** No character of `w` is whitespace (`w` may be empty). */
  predicate NoSpace(w: string)
  {
    forall j :: 0 <= j < |w| ==> !IsSpace(w[j])
  }

  /**
   * `' '.join(ws).split()` is `ws` without its empty strings, for
   * whitespace-free strings: runs of blanks produce no empty fields.
   */
  lemma {:induction false} WordsJoinBlanks(ws: seq<string>)
    requires forall i :: 0 <= i < |ws| ==> NoSpace(ws[i])
    ensures Words(Join(ws, ' ')) == NonEmpty(ws)
  {
    if |ws| == 1 {
      if ws[0] != "" {
        TokenOfWord(ws[0], []);
        assert ws[0] + [] == ws[0];
        assert ws[0][|ws[0]|..] == [];
      }
      assert ws[1..] == [];
    } else if |ws| > 1 {
      var rest := Join(ws[1..], ' ');
      WordsJoinBlanks(ws[1..]);
      assert Words([' '] + rest) == Words(rest) by {
        assert ([' '] + rest)[1..] == rest;
      }
      if ws[0] == "" {
        assert Join(ws, ' ') == [' '] + rest;
      } else {
        var s := Join(ws, ' ');
        assert s == ws[0] + ([' '] + rest);
        TokenOfWord(ws[0], [' '] + rest);
        assert s[|ws[0]|..] == [' '] + rest;
      }
    }
  }

  /** `s.lstrip(chars)`: drops the leading characters that are in `chars`. */
  function LStrip(s: string, chars: set<char>): (r: string)
    ensures |r| <= |s| && r == s[|s| - |r|..]
    ensures forall k :: 0 <= k < |s| - |r| ==> s[k] in chars
    ensures r == [] || r[0] !in chars
  {
    if s != [] && s[0] in chars then LStrip(s[1..], chars) else s
  }

  /** `s.rstrip(chars)`: drops the trailing characters that are in `chars`. */
  function RStrip(s: string, chars: set<char>): (r: string)
    ensures |r| <= |s| && r == s[..|r|]
    ensures forall k :: |r| <= k < |s| ==> s[k] in chars
    ensures r == [] || r[|r| - 1] !in chars
  {
    if s != [] && s[|s| - 1] in chars then RStrip(s[..|s| - 1], chars) else s
  }

  /**
   * `r` is the slice of `s` starting at `a`, and everything `s` holds before
   * or after that slice is one of `chars`.
   */
  predicate StripsTo(s: string, chars: set<char>, a: int, r: string)
  {
    && 0 <= a <= |s| - |r|
    && r == s[a..a + |r|]
    && (forall k :: 0 <= k < a ==> s[k] in chars)
    && (forall k :: a + |r| <= k < |s| ==> s[k] in chars)
  }

  /**
   * `s.strip(chars)`: a middle slice of `s`, with only characters of `chars`
   * dropped at either end, and neither of its own ends one of `chars`.
   */
  function Strip(s: string, chars: set<char>): (r: string)
    ensures |r| <= |s|
    ensures r == [] || (r[0] !in chars && r[|r| - 1] !in chars)
    ensures exists a :: StripsTo(s, chars, a, r)
  {
    StripSlice(s, chars);
    RStrip(LStrip(s, chars), chars)
  }

  /** What `lstrip` leaves starts at the cut, and `rstrip` only trims its end. */
  lemma StripSlice(s: string, chars: set<char>)
    ensures StripsTo(s, chars, |s| - |LStrip(s, chars)|, RStrip(LStrip(s, chars), chars))
  {
    var l := LStrip(s, chars);
    var r := RStrip(l, chars);
    var a := |s| - |l|;
    assert l == s[a..];
    assert r == l[..|r|];
    assert r == s[a..a + |r|];
    forall k | a + |r| <= k < |s| ensures s[k] in chars {
      assert s[k] == l[k - a];
    }
  }

  /**
   * `s.replace(target, repl)`: one left-to-right pass that rewrites
   * non-overlapping occurrences of `target`; rewritten text is not rescanned.
   */
  function Replace(s: string, target: string, repl: string): string
    requires target != []
    decreases |s|
  {
    if |target| <= |s| && s[..|target|] == target then repl + Replace(s[|target|..], target, repl)
    else if s == [] then []
    else [s[0]] + Replace(s[1..], target, repl)
  }

  /** Two dots start at position `i`. */
  predicate DotPairAt(s: string, i: int)
    requires 0 <= i < |s| - 1
  {
    s[i] == '.' && s[i + 1] == '.'
  }

  /** Three dots start at position `i`. */
  predicate DotTripleAt(s: string, i: int)
    requires 0 <= i < |s| - 2
  {
    s[i] == '.' && s[i + 1] == '.' && s[i + 2] == '.'
  }

  /** No two adjacent dots anywhere in `s`. */
  predicate NoDotPair(s: string)
  {
    forall i :: 0 <= i < |s| - 1 ==> !DotPairAt(s, i)
  }

  /** No three adjacent dots anywhere in `s`. */
  predicate NoDotTriple(s: string)
  {
    forall i :: 0 <= i < |s| - 2 ==> !DotTripleAt(s, i)
  }

  /** One step of `s.replace('..', '.')`, spelled out for the proofs below. */
  lemma ReplaceDotsUnfold(s: string)
    ensures Replace(s, "..", ".") ==
      if |s| >= 2 && s[0] == '.' && s[1] == '.' then "." + Replace(s[2..], "..", ".")
      else if s == [] then []
      else [s[0]] + Replace(s[1..], "..", ".")
  {
    if |s| >= 2 {
      assert (s[..2] == "..") <==> (s[0] == '.' && s[1] == '.');
    }
  }

  /**
   * `s.replace('..', '.')` shortens, keeps both end characters, and leaves
   * a string without `..` unchanged.
   */
  lemma {:induction false} ReplaceDotsShape(s: string)
    ensures var r := Replace(s, "..", ".");
      && |r| <= |s|
      && (r == [] <==> s == [])
      && (r != [] ==> r[0] == s[0] && r[|r| - 1] == s[|s| - 1])
      && (NoDotPair(s) ==> r == s)
    decreases |s|
  {
    ReplaceDotsUnfold(s);
    if |s| >= 2 && s[0] == '.' && s[1] == '.' {
      ReplaceDotsShape(s[2..]);
      assert DotPairAt(s, 0);
    } else if s != [] {
      ReplaceDotsShape(s[1..]);
      assert [s[0]] + s[1..] == s;
      if NoDotPair(s) {
        forall i | 0 <= i < |s| - 2 ensures !DotPairAt(s[1..], i) {
          assert !DotPairAt(s, i + 1);
        }
      }
    }
  }

  /** `s.replace('..', '.')` strictly shortens a string that holds `..`. */
  lemma {:induction false} ReplaceDotsShrinks(s: string)
    requires !NoDotPair(s)
    ensures |Replace(s, "..", ".")| < |s|
    decreases |s|
  {
    ReplaceDotsUnfold(s);
    if |s| >= 2 && s[0] == '.' && s[1] == '.' {
      ReplaceDotsShape(s[2..]);
    } else {
      var i :| 0 <= i < |s| - 1 && DotPairAt(s, i);
      assert i > 0;
      assert DotPairAt(s[1..], i - 1);
      ReplaceDotsShrinks(s[1..]);
    }
  }

  /**
   * A single pass of `replace('..', '.')` removes every `..` exactly when the
   * input holds no run of three dots.
   */
  lemma {:induction false} ReplaceDotsNoPair(s: string)
    requires NoDotTriple(s)
    ensures NoDotPair(Replace(s, "..", "."))
    decreases |s|
  {
    ReplaceDotsUnfold(s);
    var r := Replace(s, "..", ".");
    if |s| >= 2 && s[0] == '.' && s[1] == '.' {
      var t := s[2..];
      assert NoDotTriple(t) by {
        forall i | 0 <= i < |t| - 2 ensures !DotTripleAt(t, i) {
          assert !DotTripleAt(s, i + 2);
        }
      }
      ReplaceDotsNoPair(t);
      ReplaceDotsShape(t);
      var rt := Replace(t, "..", ".");
      assert r == "." + rt;
      if t != [] {
        assert !DotTripleAt(s, 0);
      }
      forall i | 0 <= i < |r| - 1 ensures !DotPairAt(r, i) {
        if i > 0 {
          assert !DotPairAt(rt, i - 1);
        } else {
          assert r[1] == rt[0] == t[0];
        }
      }
    } else if s != [] {
      var t := s[1..];
      assert NoDotTriple(t) by {
        forall i | 0 <= i < |t| - 2 ensures !DotTripleAt(t, i) {
          assert !DotTripleAt(s, i + 1);
        }
      }
      ReplaceDotsNoPair(t);
      ReplaceDotsShape(t);
      var rt := Replace(t, "..", ".");
      assert r == [s[0]] + rt;
      forall i | 0 <= i < |r| - 1 ensures !DotPairAt(r, i) {
        if i > 0 {
          assert !DotPairAt(rt, i - 1);
        } else {
          assert r[1] == rt[0] == t[0] == s[1];
        }
      }
    }
  }

  /** The pass does not rescan what it wrote: `".../".replace('..', '.')` still holds `..`. */
  lemma ReplaceSinglePass()
    ensures Replace("a/.../b", "..", ".") == "a/../b"
  {
    var s := "a/.../b";
    assert NoDotPair(s[4..]) by {
      assert s[4..] == "./b";
    }
    ReplaceDotsShape(s[4..]);
    ReplaceDotsUnfold(s[2..]);
    assert s[2..][2..] == s[4..];
    ReplaceDotsUnfold(s[1..]);
    assert s[1..][1..] == s[2..];
    ReplaceDotsUnfold(s);
  }

  /** Separator-free pieces of a dot-pair-free string are dot-pair-free. */
  lemma {:induction false} SplitKeepsNoDotPair(s: string, sep: char)
    requires sep != '.'
    requires NoDotPair(s)
    ensures forall i :: 0 <= i < |Split(s, sep)| ==> NoDotPair(Split(s, sep)[i])
    decreases |s|
  {
    if s != [] {
      var t := s[1..];
      assert NoDotPair(t) by {
        forall i | 0 <= i < |t| - 1 ensures !DotPairAt(t, i) {
          assert !DotPairAt(s, i + 1);
        }
      }
      SplitKeepsNoDotPair(t, sep);
      var rest := Split(t, sep);
      if s[0] != sep {
        var p := [s[0]] + rest[0];
        assert p == [s[0]] + t[..|rest[0]|];
        assert NoDotPair(p) by {
          forall i | 0 <= i < |p| - 1 ensures !DotPairAt(p, i) {
            assert p[i] == s[i] && p[i + 1] == s[i + 1];
            assert !DotPairAt(s, i);
          }
        }
        var parts := Split(s, sep);
        assert parts == [p] + rest[1..];
        forall i | 0 <= i < |parts| ensures NoDotPair(parts[i]) {
          if i > 0 { assert parts[i] == rest[i]; }
        }
      }
    }
  }

  /** The decimal digit character for `d`. */
  function DigitChar(d: nat): (c: char)
    requires d < 10
  {
    "0123456789"[d]
  }

  /** The value of one decimal digit character. */
  function DigitValue(c: char): nat
  {
    if '0' <= c <= '9' then (c as int - '0' as int) else 0
  }

  /** True when every character of `s` is a decimal digit. */
  predicate AllDigits(s: string)
  {
    forall i :: 0 <= i < |s| ==> '0' <= s[i] <= '9'
  }

  /**
   * `str(n)` for a non-negative integer (also what `'{:0.0f}'.format(n)`
   * prints for one below 2^53): the digits without leading zeros.
   */
  function Decimal(n: nat): (s: string)
    ensures s != [] && AllDigits(s)
    ensures |s| > 1 ==> s[0] != '0'
    decreases n
  {
    if n < 10 then [DigitChar(n)] else Decimal(n / 10) + [DigitChar(n % 10)]
  }

  /** The number a string of decimal digits denotes, read left to right. */
  function DecimalValue(s: string): nat
  {
    if s == [] then 0 else 10 * DecimalValue(s[..|s| - 1]) + DigitValue(s[|s| - 1])
  }

  /** Round trip: reading back the decimal rendering gives the number. */
  lemma {:induction false} DecimalRoundTrip(n: nat)
    ensures DecimalValue(Decimal(n)) == n
    decreases n
  {
    var s := Decimal(n);
    if n < 10 {
      assert s[..0] == [];
    } else {
      DecimalRoundTrip(n / 10);
      assert s[..|s| - 1] == Decimal(n / 10);
    }
  }
}
