/** The JavaScript string built-ins the log parser relies on, modelled on
    `string` (a sequence of characters): `toLowerCase`, `includes`,
    `endsWith`, `trim`, `split` on one separator character and `join`. */
module JsString {

  /** `toLowerCase` restricted to ASCII: 'A'..'Z' become 'a'..'z', every
      other character is left alone. */
  function LowerChar(c: char): (r: char)
    ensures 'A' <= c <= 'Z' ==> 'a' <= r <= 'z' && r as int - 'a' as int == c as int - 'A' as int
    ensures !('A' <= c <= 'Z') ==> r == c
    ensures !('A' <= r <= 'Z')
  {
    if 'A' <= c <= 'Z' then (c as int + 32) as char else c
  }

  function Lower(s: string): (r: string)
    ensures |r| == |s|
  {
    seq(|s|, i requires 0 <= i < |s| => LowerChar(s[i]))
  }

  lemma LowerIdempotent(s: string)
    ensures Lower(Lower(s)) == Lower(s)
  {
    forall i | 0 <= i < |s|
      ensures Lower(Lower(s))[i] == Lower(s)[i]
    {
      assert !('A' <= Lower(s)[i] <= 'Z');
    }
  }

  lemma LowerAppend(a: string, b: string)
    ensures Lower(a + b) == Lower(a) + Lower(b)
  {
    assert forall i :: 0 <= i < |a| ==> (a + b)[i] == a[i];
    assert forall i :: |a| <= i < |a| + |b| ==> (a + b)[i] == b[i - |a|];
  }

  /** A word occurring in `s` occurs, lower-cased, at the same place in `Lower(s)`. */
  lemma LowerOccurs(s: string, word: string, i: nat)
    requires OccursAt(s, word, i)
    ensures OccursAt(Lower(s), Lower(word), i)
  {
    forall k | 0 <= k < |word|
      ensures Lower(s)[i + k] == Lower(word)[k]
    {
      assert s[i + k] == word[k];
    }
  }

  /** A lower-case letter absent from `s` in both cases is absent from `Lower(s)`. */
  lemma LowerLacks(s: string, c: char)
    requires 'a' <= c <= 'z'
    requires c !in s && (c as int - 32) as char !in s
    ensures c !in Lower(s)
  {
    forall i | 0 <= i < |s|
      ensures Lower(s)[i] != c
    {
      assert s[i] != c && s[i] != (c as int - 32) as char;
    }
  }

  /** `s.startsWith(p)` */
  predicate StartsWith(s: string, p: string)
  {
    |p| <= |s| && s[..|p|] == p
  }

  /** `s.endsWith(p)` */
  predicate EndsWith(s: string, p: string)
  {
    |p| <= |s| && s[|s| - |p|..] == p
  }

  /** `p` occurs in `s` starting at position `i`. */
  predicate OccursAt(s: string, p: string, i: nat)
  {
    i + |p| <= |s| && s[i..i + |p|] == p
  }

  /** `s.includes(p)`: `s` starts with `p`, or its remainder includes `p`. */
  predicate Contains(s: string, p: string)
    decreases |s|
  {
    StartsWith(s, p) || (s != [] && Contains(s[1..], p))
  }

  /** A text ends with `p` exactly when it is some stem followed by `p`. */
  lemma EndsWithIff(s: string, p: string)
    ensures EndsWith(s, p) <==> exists stem :: s == stem + p
  {
    if EndsWith(s, p) {
      var stem := s[..|s| - |p|];
      assert s == stem + p;
    }
    forall stem | s == stem + p
      ensures EndsWith(s, p)
    {
      assert s[|s| - |p|..] == p;
    }
  }

  /** An occurrence of `p` at any position is found by `Contains`, and
      every success of `Contains` has such a position. */
  lemma {:induction false} ContainsAt(s: string, p: string, i: nat)
    requires OccursAt(s, p, i)
    ensures Contains(s, p)
    decreases i
  {
    if i == 0 {
      assert s[..|p|] == s[0..0 + |p|];
    } else {
      assert s[1..][i - 1..i - 1 + |p|] == s[i..i + |p|];
      ContainsAt(s[1..], p, i - 1);
    }
  }

  /** `Contains` agrees with the positional definition of an occurrence. */
  lemma {:induction false} ContainsIff(s: string, p: string)
    ensures Contains(s, p) <==> exists i: nat :: i <= |s| && OccursAt(s, p, i)
    decreases |s|
  {
    if Contains(s, p) {
      if StartsWith(s, p) {
        assert OccursAt(s, p, 0);
      } else {
        ContainsIff(s[1..], p);
        var i: nat :| i <= |s[1..]| && OccursAt(s[1..], p, i);
        assert s[1..][i..i + |p|] == s[i + 1..i + 1 + |p|];
        assert OccursAt(s, p, i + 1);
      }
    }
    if exists i: nat :: i <= |s| && OccursAt(s, p, i) {
      var i: nat :| i <= |s| && OccursAt(s, p, i);
      ContainsAt(s, p, i);
    }
  }

  /** If `p` holds a character that `s` lacks, `s` does not include `p`. */
  lemma {:induction false} NotContainsMissingChar(s: string, p: string, c: char)
    requires c in p && c !in s
    ensures !Contains(s, p)
    decreases |s|
  {
    if s != [] {
      assert c !in s[1..] by {
        assert forall x :: x in s[1..] ==> x in s;
      }
      NotContainsMissingChar(s[1..], p, c);
    }
  }

  /** An occurrence of an infix `q` of `p` lies inside every occurrence of `p`. */
  lemma ContainsInfix(s: string, p: string, q: string, j: nat)
    requires OccursAt(p, q, j)
    requires Contains(s, p)
    ensures Contains(s, q)
  {
    ContainsIff(s, p);
    var i: nat :| i <= |s| && OccursAt(s, p, i);
    assert i + |p| <= |s| && s[i..i + |p|] == p;
    assert j + |q| <= |p| && p[j..j + |q|] == q;
    forall k | 0 <= k < |q|
      ensures s[i + j + k] == q[k]
    {
      assert q[k] == p[j..j + |q|][k] == p[j + k];
      assert p[j + k] == s[i..i + |p|][j + k] == s[i + j + k];
    }
    assert s[i + j..i + j + |q|] == q;
    ContainsAt(s, q, i + j);
  }

  /** Exactly the characters that JavaScript's `trim` removes: the
      WhiteSpace (TAB, VT, FF, ZWNBSP and the Unicode space separators)
      and LineTerminator (LF, CR, LS, PS) code points of ECMAScript. */
  predicate IsWhitespace(c: char)
  {
    c == ' ' || c == '\t' || c == '\n' || c == '\U{000B}' || c == '\U{000C}' || c == '\r'
    || c == '\U{00A0}' || c == '\U{1680}' || ('\U{2000}' <= c <= '\U{200A}')
    || c == '\U{2028}' || c == '\U{2029}' || c == '\U{202F}' || c == '\U{205F}'
    || c == '\U{3000}' || c == '\U{FEFF}'
  }

  /** Every character of `s` is whitespace. */
  predicate AllWhitespace(s: string)
  {
    s == [] || (IsWhitespace(s[0]) && AllWhitespace(s[1..]))
  }

  /** `AllWhitespace` says of each position of `s` that it holds whitespace. */
  lemma {:induction false} AllWhitespaceIff(s: string)
    ensures AllWhitespace(s) <==> forall k :: 0 <= k < |s| ==> IsWhitespace(s[k])
  {
    if s != [] {
      AllWhitespaceIff(s[1..]);
      assert forall k :: 1 <= k < |s| ==> s[k] == s[1..][k - 1];
    }
  }

  /** Every position of an all-whitespace string holds whitespace. */
  lemma {:induction false} AllWhitespaceAt(s: string, k: nat)
    requires AllWhitespace(s) && k < |s|
    ensures IsWhitespace(s[k])
  {
    if k > 0 {
      AllWhitespaceAt(s[1..], k - 1);
    }
  }

  /** Whitespace followed by one more whitespace character is whitespace. */
  lemma {:induction false} AllWhitespaceSnoc(s: string, c: char)
    requires AllWhitespace(s) && IsWhitespace(c)
    ensures AllWhitespace(s + [c])
  {
    if s == [] {
      assert [c][1..] == [];
    } else {
      AllWhitespaceSnoc(s[1..], c);
      assert (s + [c])[1..] == s[1..] + [c];
    }
  }

  /** The number of whitespace characters `s` starts with. */
  function LeadingSpace(s: string): (n: nat)
    ensures n <= |s|
    ensures AllWhitespace(s[..n])
    ensures n < |s| ==> !IsWhitespace(s[n])
    decreases |s|
  {
    if |s| > 0 && IsWhitespace(s[0]) then
      var n := 1 + LeadingSpace(s[1..]);
      assert s[..n][1..] == s[1..][..n - 1];
      assert n < |s| ==> s[n] == s[1..][n - 1];
      n
    else 0
  }

  /** The number of whitespace characters `s` ends with. */
  function TrailingSpace(s: string): (n: nat)
    ensures n <= |s|
    ensures AllWhitespace(s[|s| - n..])
    ensures n < |s| ==> !IsWhitespace(s[|s| - n - 1])
    decreases |s|
  {
    if |s| > 0 && IsWhitespace(s[|s| - 1]) then
      var n := 1 + TrailingSpace(s[..|s| - 1]);
      assert s[..|s| - 1][|s| - n..] == s[|s| - n..|s| - 1];
      assert s[|s| - n..] == s[|s| - n..|s| - 1] + [s[|s| - 1]];
      assert n < |s| ==> s[|s| - n - 1] == s[..|s| - 1][|s| - n - 1];
      AllWhitespaceSnoc(s[|s| - n..|s| - 1], s[|s| - 1]);
      n
    else 0
  }

  /** `s.trim()`: the block of `s` between its leading and its trailing
      whitespace. Everything dropped on either side is whitespace, neither
      end of the result is, and an input with solid ends is kept whole. */
  function Trim(s: string): (r: string)
    ensures LeadingSpace(s) + |r| <= |s|
    ensures r == s[LeadingSpace(s)..LeadingSpace(s) + |r|]
    ensures AllWhitespace(s[..LeadingSpace(s)])
    ensures AllWhitespace(s[LeadingSpace(s) + |r|..])
    ensures r == [] || (!IsWhitespace(r[0]) && !IsWhitespace(r[|r| - 1]))
    ensures (s == [] || (!IsWhitespace(s[0]) && !IsWhitespace(s[|s| - 1]))) ==> r == s
  {
    var i := LeadingSpace(s);
    if i == |s| then
      assert s[i..] == [];
      []
    else
      var j := |s| - TrailingSpace(s);
      assert i < j by {
        if j <= i { AllWhitespaceAt(s[j..], i - j); }
      }
      var r := s[i..j];
      assert i + |r| == j;
      r
  }

  /** Trimming keeps only characters of its input. */
  lemma TrimNoChar(s: string, c: char)
    requires c !in s
    ensures c !in Trim(s)
  {
    var r := Trim(s);
    var off := LeadingSpace(s);
    forall k | 0 <= k < |r|
      ensures r[k] != c
    {
      assert r[k] == s[off + k];
    }
  }

  /** `s.split(sep)`: the pieces of `s` between occurrences of `sep`;
      there is always at least one piece, and no piece holds `sep`. */
  function Split(s: string, sep: char): (r: seq<string>)
    ensures |r| >= 1
    ensures forall k :: 0 <= k < |r| ==> sep !in r[k]
    decreases |s|
  {
    if s == [] then [""]
    else
      var rest := Split(s[1..], sep);
      if s[0] == sep then [""] + rest
      else [[s[0]] + rest[0]] + rest[1..]
  }

  /** `parts.join(sep)` */
  function Join(parts: seq<string>, sep: char): string
    decreases |parts|
  {
    if |parts| == 0 then ""
    else if |parts| == 1 then parts[0]
    else parts[0] + [sep] + Join(parts[1..], sep)
  }

  /** Text without the separator is a single piece. */
  lemma {:induction false} SplitNoSep(s: string, sep: char)
    requires sep !in s
    ensures Split(s, sep) == [s]
    decreases |s|
  {
    if s != [] {
      assert sep !in s[1..] by {
        assert forall c :: c in s[1..] ==> c in s;
      }
      SplitNoSep(s[1..], sep);
      assert [s[0]] + s[1..] == s;
    }
  }

  /** Splitting is compositional at a separator: the pieces of
      `a + sep + b` are those of `a` followed by those of `b`. */
  lemma {:induction false} SplitAtSep(a: string, b: string, sep: char)
    ensures Split(a + [sep] + b, sep) == Split(a, sep) + Split(b, sep)
    decreases |a|
  {
    var s := a + [sep] + b;
    if a == [] {
      assert s == [sep] + b;
      assert s[0] == sep && s[1..] == b;
    } else {
      assert s[0] == a[0] && s[1..] == a[1..] + [sep] + b;
      SplitAtSep(a[1..], b, sep);
      var restA := Split(a[1..], sep);
      var rest := Split(s[1..], sep);
      assert rest == restA + Split(b, sep);
      if a[0] == sep {
        assert Split(s, sep) == [""] + rest;
        assert Split(a, sep) == [""] + restA;
      } else {
        assert Split(s, sep) == [[a[0]] + rest[0]] + rest[1..];
        assert Split(a, sep) == [[a[0]] + restA[0]] + restA[1..];
        ExtendFirstPiece(a[0], restA, Split(b, sep));
      }
    }
  }

  /** Prefixing a character to the first piece commutes with appending
      further pieces. */
  lemma ExtendFirstPiece(c: char, pieces: seq<string>, more: seq<string>)
    requires |pieces| >= 1
    ensures [[c] + (pieces + more)[0]] + (pieces + more)[1..]
      == ([[c] + pieces[0]] + pieces[1..]) + more
  {
    assert (pieces + more)[0] == pieces[0];
    assert (pieces + more)[1..] == pieces[1..] + more;
  }

  /** Joining the pieces of a split gives the text back. */
  lemma {:induction false} JoinSplit(s: string, sep: char)
    ensures Join(Split(s, sep), sep) == s
    decreases |s|
  {
    if s != [] {
      var rest := Split(s[1..], sep);
      JoinSplit(s[1..], sep);
      if s[0] == sep {
        var parts := [""] + rest;
        assert parts[1..] == rest;
        assert Join(parts, sep) == "" + [sep] + Join(rest, sep);
      } else {
        var parts := [[s[0]] + rest[0]] + rest[1..];
        if |rest| == 1 {
          assert Join(parts, sep) == [s[0]] + rest[0];
        } else {
          assert parts[1..] == rest[1..];
          assert Join(rest, sep) == rest[0] + [sep] + Join(rest[1..], sep);
          assert Join(parts, sep) == [s[0]] + rest[0] + [sep] + Join(rest[1..], sep);
        }
        assert Join(parts, sep) == [s[0]] + Join(rest, sep);
      }
      assert [s[0]] + s[1..] == s;
    }
  }

  /** Splitting a non-empty join of separator-free pieces gives the pieces back. */
  lemma {:induction false} SplitJoin(parts: seq<string>, sep: char)
    requires |parts| >= 1
    requires forall k :: 0 <= k < |parts| ==> sep !in parts[k]
    ensures Split(Join(parts, sep), sep) == parts
    decreases |parts|
  {
    SplitNoSep(parts[0], sep);
    if |parts| > 1 {
      SplitJoin(parts[1..], sep);
      SplitAtSep(parts[0], Join(parts[1..], sep), sep);
      assert [parts[0]] + parts[1..] == parts;
    }
  }

  /** A separator-free piece framed by two separators is one piece of its own. */
  lemma SplitAroundPiece(a: string, m: string, b: string, sep: char)
    requires sep !in m
    ensures Split(a + [sep] + m + [sep] + b, sep) == Split(a, sep) + [m] + Split(b, sep)
  {
    assert a + [sep] + m + [sep] + b == a + [sep] + (m + [sep] + b);
    SplitAtSep(a, m + [sep] + b, sep);
    SplitAtSep(m, b, sep);
    SplitNoSep(m, sep);
  }
}
