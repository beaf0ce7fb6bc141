/** The three Python string operations the hosts parser relies on:
    `s.split(sep)` with a one-character separator, `s.strip()` and `s.split()`
    with no argument, all three over Python's notion of whitespace. */
module PyText {
  import opened Seqs

  /** Python's `str.isspace()` for one character: the code points that
      `str.strip()` and `str.split()` treat as whitespace. */
  predicate IsSpace(c: char) {
    var n := c as int;
    (9 <= n <= 13) || (28 <= n <= 32) || n == 0x85 || n == 0xA0 || n == 0x1680
    || (0x2000 <= n <= 0x200A) || n == 0x2028 || n == 0x2029 || n == 0x202F
    || n == 0x205F || n == 0x3000
  }

  /** Among ASCII characters, the whitespace is tab, newline, vertical tab,
      form feed, carriage return, the four separators 0x1C-0x1F and space. */
  lemma AsciiSpaces(c: char)
    requires c as int < 128
    ensures IsSpace(c) <==> c in {'\t', '\n', '\U{B}', '\U{C}', '\r', '\U{1C}', '\U{1D}', '\U{1E}', '\U{1F}', ' '}
  {
  }

  predicate AllSpace(s: string) {
    forall i :: 0 <= i < |s| ==> IsSpace(s[i])
  }

  /** A token as `str.split()` produces it: non-empty and free of whitespace. */
  predicate IsToken(t: string) {
    |t| > 0 && forall i :: 0 <= i < |t| ==> !IsSpace(t[i])
  }

  // ---------------------------------------------------------------------------
  // s.split(sep) and its inverse sep.join(parts)
  // ---------------------------------------------------------------------------

  /** `s.split(sep)`: n separators give n + 1 parts, empty parts included. */
  function Split(s: string, sep: char): (parts: seq<string>)
    ensures |parts| >= 1
  {
    if s == [] then [[]]
    else
      var rest := Split(s[1..], sep);
      if s[0] == sep then [[]] + rest
      else [[s[0]] + rest[0]] + rest[1..]
  }

  /** `sep.join(parts)`. */
  function Join(parts: seq<string>, sep: char): string
    requires |parts| >= 1
  {
    if |parts| == 1 then parts[0] else parts[0] + [sep] + Join(parts[1..], sep)
  }

  /** Splitting at a separator that occurs in the text splits the parts apart. */
  lemma {:induction false} SplitConcat(a: string, sep: char, b: string)
    ensures Split(a + [sep] + b, sep) == Split(a, sep) + Split(b, sep)
  {
    if a == [] {
      assert a + [sep] + b == [sep] + b;
      assert ([sep] + b)[1..] == b;
    } else {
      assert (a + [sep] + b)[1..] == a[1..] + [sep] + b;
      SplitConcat(a[1..], sep, b);
    }
  }

  /** A text without the separator is a single part. */
  lemma {:induction false} SplitNoSep(s: string, sep: char)
    requires sep !in s
    ensures Split(s, sep) == [s]
  {
    if s != [] {
      assert sep !in s[1..] by {
        forall i | 0 <= i < |s[1..]| ensures s[1..][i] != sep { assert s[1..][i] == s[i + 1]; }
      }
      SplitNoSep(s[1..], sep);
      assert [s[0]] + s[1..] == s;
    }
  }

  /** Joining the parts back together gives the original text. */
  lemma {:induction false} JoinSplit(s: string, sep: char)
    ensures Join(Split(s, sep), sep) == s
  {
    if s != [] {
      var rest := Split(s[1..], sep);
      JoinSplit(s[1..], sep);
      if s[0] == sep {
        assert Join([[]] + rest, sep) == [] + [sep] + Join(rest, sep) by {
          assert ([[]] + rest)[1..] == rest;
        }
        assert s == [s[0]] + s[1..];
      } else {
        var parts := [[s[0]] + rest[0]] + rest[1..];
        if |rest| == 1 {
          assert Join(parts, sep) == [s[0]] + rest[0];
        } else {
          assert parts[1..] == rest[1..];
          assert Join(parts, sep) == [s[0]] + (rest[0] + [sep] + Join(rest[1..], sep));
        }
        assert s == [s[0]] + s[1..];
      }
    }
  }

  /** Appending a character other than the separator extends the last part. */
  lemma SplitCons(x: char, r: string, sep: char)
    ensures var p := Split(r, sep);
            Split([x] + r, sep) == if x == sep then [[]] + p else [[x] + p[0]] + p[1..]
  {
    assert ([x] + r)[0] == x && ([x] + r)[1..] == r;
  }

  /** `parts` with `c` appended to the last part. */
  function ExtendLast(parts: seq<string>, c: char): seq<string>
    requires |parts| >= 1
  {
    parts[..|parts| - 1] + [parts[|parts| - 1] + [c]]
  }

  lemma {:induction false} SplitSnoc(s: string, sep: char, c: char)
    requires c != sep
    ensures Split(s + [c], sep) == ExtendLast(Split(s, sep), c)
  {
    var e: string := [];
    if s == [] {
      SplitCons(c, e, sep);
      assert s + [c] == [c] + e;
    } else {
      var x, r := s[0], s[1..];
      assert s == [x] + r && s + [c] == [x] + (r + [c]);
      SplitSnoc(r, sep, c);
      SplitCons(x, r, sep);
      SplitCons(x, r + [c], sep);
      if x == sep {
        ExtendLastAfterEmpty(Split(r, sep), c);
      } else {
        ExtendLastHead([x], Split(r, sep), c);
      }
    }
  }

  /** Putting an empty part in front commutes with extending the last part. */
  lemma ExtendLastAfterEmpty(p: seq<string>, c: char)
    requires |p| >= 1
    ensures [[]] + ExtendLast(p, c) == ExtendLast([[]] + p, c)
  {
    var parts := [[]] + p;
    assert parts[..|parts| - 1] == [[]] + p[..|p| - 1];
  }

  /** Widening the first part commutes with extending the last part. */
  lemma ExtendLastHead(h: string, p: seq<string>, c: char)
    requires |p| >= 1
    ensures var q := ExtendLast(p, c); [h + q[0]] + q[1..] == ExtendLast([h + p[0]] + p[1..], c)
  {
    var q := ExtendLast(p, c);
    var n := |p|;
    if n == 1 {
      assert q == [p[0] + [c]];
      assert h + (p[0] + [c]) == (h + p[0]) + [c];
    } else {
      assert q[0] == p[0] && q[1..] == p[1..n - 1] + [p[n - 1] + [c]];
      var parts := [h + p[0]] + p[1..];
      assert parts[..|parts| - 1] == [h + p[0]] + p[1..n - 1];
      assert parts[|parts| - 1] == p[n - 1];
    }
  }

  /** Splitting a join of separator-free parts gives the parts back. */
  lemma {:induction false} SplitJoin(parts: seq<string>, sep: char)
    requires |parts| >= 1
    requires forall i :: 0 <= i < |parts| ==> sep !in parts[i]
    ensures Split(Join(parts, sep), sep) == parts
  {
    SplitNoSep(parts[0], sep);
    if |parts| > 1 {
      SplitJoin(parts[1..], sep);
      SplitConcat(parts[0], sep, Join(parts[1..], sep));
      assert parts == [parts[0]] + parts[1..];
    }
  }

  // ---------------------------------------------------------------------------
  // s.strip()
  // ---------------------------------------------------------------------------

  /** `s.lstrip()`. */
  function TrimStart(s: string): string {
    if s != [] && IsSpace(s[0]) then TrimStart(s[1..]) else s
  }

  /** `s.rstrip()`. */
  function TrimEnd(s: string): string {
    if s != [] && IsSpace(s[|s| - 1]) then TrimEnd(s[..|s| - 1]) else s
  }

  /** `s.strip()`. */
  function Strip(s: string): string {
    TrimEnd(TrimStart(s))
  }

  /** `s.lstrip()` is the suffix of `s` left after a blank prefix, and starts
      with a non-blank character unless it is empty. */
  lemma {:induction false} TrimStartParts(s: string)
    ensures var r := TrimStart(s);
            |r| <= |s| && r == s[|s| - |r|..] && AllSpace(s[..|s| - |r|])
            && (r == [] || !IsSpace(r[0]))
  {
    if s != [] && IsSpace(s[0]) {
      TrimStartParts(s[1..]);
      var r := TrimStart(s);
      assert s[..|s| - |r|] == [s[0]] + s[1..][..|s[1..]| - |r|];
    }
  }

  /** `s.rstrip()` is the prefix of `s` left before a blank suffix, and ends
      with a non-blank character unless it is empty. */
  lemma {:induction false} TrimEndParts(s: string)
    ensures var r := TrimEnd(s);
            |r| <= |s| && r == s[..|r|] && AllSpace(s[|r|..])
            && (r == [] || !IsSpace(r[|r| - 1]))
  {
    if s != [] && IsSpace(s[|s| - 1]) {
      TrimEndParts(s[..|s| - 1]);
      var r := TrimEnd(s);
      assert s[|r|..] == s[..|s| - 1][|r|..] + [s[|s| - 1]];
    }
  }

  /** `s.strip()` is `s` without a blank prefix and a blank suffix, and neither
      starts nor ends with a blank character. */
  lemma StripParts(s: string) returns (lead: string, trail: string)
    ensures s == lead + Strip(s) + trail
    ensures AllSpace(lead) && AllSpace(trail)
    ensures Strip(s) == [] || (!IsSpace(Strip(s)[0]) && !IsSpace(Strip(s)[|Strip(s)| - 1]))
  {
    var t := TrimStart(s);
    TrimStartParts(s);
    TrimEndParts(t);
    var r := TrimEnd(t);
    lead := s[..|s| - |t|];
    trail := t[|r|..];
    assert s == lead + t;
    assert t == r + trail;
  }

  // ---------------------------------------------------------------------------
  // s.split() with no argument
  // ---------------------------------------------------------------------------

  /** `s.split()`: the maximal runs of non-whitespace characters, in order. */
  function Tokens(s: string): (ts: seq<string>)
    ensures s != [] && !IsSpace(s[0]) ==> ts != [] && |ts[0]| > 0 && ts[0][0] == s[0]
  {
    if s == [] then []
    else
      var rest := Tokens(s[1..]);
      if IsSpace(s[0]) then rest
      else if |s| == 1 || IsSpace(s[1]) then [[s[0]]] + rest
      else
        assert s[1..][0] == s[1];
        [[s[0]] + rest[0]] + rest[1..]
  }

  /** Every token is non-empty and free of whitespace. */
  lemma {:induction false} TokensAreTokens(s: string)
    ensures forall i :: 0 <= i < |Tokens(s)| ==> IsToken(Tokens(s)[i])
  {
    if s != [] {
      TokensAreTokens(s[1..]);
      var rest := Tokens(s[1..]);
      if !IsSpace(s[0]) && |s| > 1 && !IsSpace(s[1]) {
        assert s[1..][0] == s[1];
        var t := [s[0]] + rest[0];
        assert IsToken(rest[0]);
        assert IsToken(t) by {
          forall i | 0 <= i < |t| ensures !IsSpace(t[i]) {
            if i > 0 { assert t[i] == rest[0][i - 1]; }
          }
        }
        assert Tokens(s) == [t] + rest[1..];
      }
    }
  }

  /** One unfolding of `Tokens` in front of arbitrary text. */
  lemma TokensCons(x: char, r: string)
    ensures var t := Tokens(r);
            Tokens([x] + r) == if IsSpace(x) then t
                               else if r == [] || IsSpace(r[0]) then [[x]] + t
                               else [[x] + t[0]] + t[1..]
  {
    var s := [x] + r;
    assert s[0] == x && s[1..] == r;
    if r != [] {
      assert s[1] == r[0];
    }
  }

  /** A whitespace character separates the tokens before it from those after it. */
  lemma {:induction false} TokensSplitAt(a: string, c: char, b: string)
    requires IsSpace(c)
    ensures Tokens(a + [c] + b) == Tokens(a) + Tokens(b)
  {
    if a == [] {
      assert a + [c] + b == [c] + b;
      TokensCons(c, b);
    } else {
      var x, r := a[0], a[1..];
      assert a == [x] + r && a + [c] + b == [x] + (r + [c] + b);
      TokensSplitAt(r, c, b);
      TokensSplitAtCons(x, r, r + [c] + b, Tokens(b));
    }
  }

  /** The inductive step of `TokensSplitAt`: putting a character in front of
      `r` and of `rest` extends their tokens alike, as long as `rest` starts
      like `r` or, when `r` is empty, with a blank. */
  lemma TokensSplitAtCons(x: char, r: string, rest: string, tb: seq<string>)
    requires Tokens(rest) == Tokens(r) + tb
    requires rest != [] && (if r == [] then IsSpace(rest[0]) else rest[0] == r[0])
    ensures Tokens([x] + rest) == Tokens([x] + r) + tb
  {
    if IsSpace(x) {
      TokensConsBlank(x, r);
      TokensConsBlank(x, rest);
    } else if r == [] || IsSpace(r[0]) {
      TokensSplitAtWordEnd(x, r, rest, tb);
    } else {
      TokensSplitAtWord(x, r, rest, tb);
    }
  }

  lemma TokensSplitAtWordEnd(x: char, r: string, rest: string, tb: seq<string>)
    requires Tokens(rest) == Tokens(r) + tb
    requires !IsSpace(x) && rest != [] && IsSpace(rest[0]) && (r == [] || IsSpace(r[0]))
    ensures Tokens([x] + rest) == Tokens([x] + r) + tb
  {
    TokensConsWordEnd(x, r);
    TokensConsWordEnd(x, rest);
    ConsAppend([x], Tokens(r), tb);
  }

  lemma TokensSplitAtWord(x: char, r: string, rest: string, tb: seq<string>)
    requires Tokens(rest) == Tokens(r) + tb
    requires !IsSpace(x) && r != [] && !IsSpace(r[0]) && rest != [] && rest[0] == r[0]
    ensures Tokens([x] + rest) == Tokens([x] + r) + tb
  {
    TokensConsWord(x, r);
    TokensConsWord(x, rest);
    var ta := Tokens(r);
    HeadTailAppend(ta, tb);
    ConsAppend([x] + ta[0], ta[1..], tb);
  }

  /** A blank in front adds no token. */
  lemma TokensConsBlank(x: char, r: string)
    requires IsSpace(x)
    ensures Tokens([x] + r) == Tokens(r)
  {
    TokensCons(x, r);
  }

  /** A non-blank in front of a blank, or of nothing, is a token of its own. */
  lemma TokensConsWordEnd(x: char, r: string)
    requires !IsSpace(x) && (r == [] || IsSpace(r[0]))
    ensures Tokens([x] + r) == [[x]] + Tokens(r)
  {
    TokensCons(x, r);
  }

  /** A non-blank in front of a non-blank joins the first token. */
  lemma TokensConsWord(x: char, r: string)
    requires !IsSpace(x) && r != [] && !IsSpace(r[0])
    ensures var t := Tokens(r); Tokens([x] + r) == [[x] + t[0]] + t[1..]
  {
    TokensCons(x, r);
  }

  /** Blank text has no tokens. */
  lemma {:induction false} TokensOfSpace(w: string)
    requires AllSpace(w)
    ensures Tokens(w) == []
  {
    if w != [] {
      assert AllSpace(w[1..]) by {
        forall i | 0 <= i < |w[1..]| ensures IsSpace(w[1..][i]) { assert w[1..][i] == w[i + 1]; }
      }
      TokensOfSpace(w[1..]);
    }
  }

  /** Leading whitespace does not change the tokens. */
  lemma {:induction false} TokensLeadingSpace(w: string, s: string)
    requires AllSpace(w)
    ensures Tokens(w + s) == Tokens(s)
  {
    if w != [] {
      assert (w + s)[0] == w[0];
      assert (w + s)[1..] == w[1..] + s;
      assert AllSpace(w[1..]) by {
        forall i | 0 <= i < |w[1..]| ensures IsSpace(w[1..][i]) { assert w[1..][i] == w[i + 1]; }
      }
      TokensLeadingSpace(w[1..], s);
    } else {
      assert w + s == s;
    }
  }

  /** Trailing whitespace does not change the tokens. */
  lemma TokensTrailingSpace(s: string, w: string)
    requires AllSpace(w)
    ensures Tokens(s + w) == Tokens(s)
  {
    if w != [] {
      assert s + w == s + [w[0]] + w[1..];
      TokensSplitAt(s, w[0], w[1..]);
      assert AllSpace(w[1..]) by {
        forall i | 0 <= i < |w[1..]| ensures IsSpace(w[1..][i]) { assert w[1..][i] == w[i + 1]; }
      }
      TokensOfSpace(w[1..]);
    } else {
      assert s + w == s;
    }
  }

  /** `s.strip().split()` is `s.split()`. */
  lemma TokensStrip(s: string)
    ensures Tokens(Strip(s)) == Tokens(s)
  {
    var lead, trail := StripParts(s);
    var m := Strip(s);
    var rest := m + trail;
    assert s == lead + rest;
    TokensLeadingSpace(lead, rest);
    TokensTrailingSpace(m, trail);
  }

  /** A single token splits to itself. */
  lemma {:induction false} TokensOfToken(t: string)
    requires IsToken(t)
    ensures Tokens(t) == [t]
  {
    if |t| > 1 {
      assert IsToken(t[1..]) by {
        forall i | 0 <= i < |t[1..]| ensures !IsSpace(t[1..][i]) { assert t[1..][i] == t[i + 1]; }
      }
      TokensOfToken(t[1..]);
      assert [t[0]] + t[1..] == t;
    } else {
      assert t == [t[0]] && t[1..] == [];
    }
  }

  /** `" ".join(ts).split() == ts` for tokens `ts`. */
  lemma {:induction false} TokensOfJoin(ts: seq<string>)
    requires |ts| >= 1
    requires forall i :: 0 <= i < |ts| ==> IsToken(ts[i])
    ensures Tokens(Join(ts, ' ')) == ts
  {
    TokensOfToken(ts[0]);
    if |ts| == 1 {
      assert ts == [ts[0]];
    } else {
      TokensOfJoin(ts[1..]);
      TokensSplitAt(ts[0], ' ', Join(ts[1..], ' '));
      assert ts == [ts[0]] + ts[1..];
    }
  }

  /** No character of a space-join of tokens is a newline. */
  lemma {:induction false} JoinHasNoNewline(ts: seq<string>)
    requires |ts| >= 1
    requires forall i :: 0 <= i < |ts| ==> IsToken(ts[i])
    ensures '\n' !in Join(ts, ' ')
  {
    assert IsSpace('\n');
    assert forall i :: 0 <= i < |ts[0]| ==> ts[0][i] != '\n';
    if |ts| > 1 {
      JoinHasNoNewline(ts[1..]);
    }
  }
}
