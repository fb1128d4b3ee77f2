/** The string operations the application leans on: JavaScript's `trim`, `toLowerCase`,
    `includes`, `startsWith` and `split`, and Python's `str.split`/`str.join`. */
module Strings {
  import opened Wrappers

  /** The white space `String.prototype.trim` removes: ECMAScript's WhiteSpace and
      LineTerminator code points. */
  predicate IsSpace(c: char) {
    || c == ' ' || c == '\t' || c == '\n' || c == '\r' || c == '\U{0B}' || c == '\U{0C}'
    || c == '\U{A0}' || c == '\U{1680}' || ('\U{2000}' <= c <= '\U{200A}')
    || c == '\U{2028}' || c == '\U{2029}' || c == '\U{202F}' || c == '\U{205F}'
    || c == '\U{3000}' || c == '\U{FEFF}'
  }

  /** A string made only of white space (the empty string included). */
  predicate IsBlank(s: string) {
    forall k :: 0 <= k < |s| ==> IsSpace(s[k])
  }

  /** `s` without its leading white space. */
  function TrimStart(s: string): string
    decreases |s|
  {
    if |s| > 0 && IsSpace(s[0]) then TrimStart(s[1..]) else s
  }

  /** `s` without its trailing white space. */
  function TrimEnd(s: string): string
    decreases |s|
  {
    if |s| > 0 && IsSpace(s[|s| - 1]) then TrimEnd(s[..|s| - 1]) else s
  }

  /** What `TrimStart` cuts: a blank prefix, up to a character that is not white space. */
  lemma {:induction false} TrimStartCuts(s: string)
    ensures |TrimStart(s)| <= |s| && TrimStart(s) == s[|s| - |TrimStart(s)|..]
    ensures TrimStart(s) == [] || !IsSpace(TrimStart(s)[0])
    ensures IsBlank(s[..|s| - |TrimStart(s)|])
    decreases |s|
  {
    if |s| > 0 && IsSpace(s[0]) {
      TrimStartCuts(s[1..]);
      var r := TrimStart(s);
      assert s[1..][|s| - 1 - |r|..] == s[|s| - |r|..];
      forall k | 0 <= k < |s| - |r| ensures IsSpace(s[k]) {
        if k > 0 { assert s[k] == s[1..][..|s| - 1 - |r|][k - 1]; }
      }
    }
  }

  /** What `TrimEnd` cuts: a blank suffix, back to a character that is not white space. */
  lemma {:induction false} TrimEndCuts(s: string)
    ensures |TrimEnd(s)| <= |s| && TrimEnd(s) == s[..|TrimEnd(s)|]
    ensures TrimEnd(s) == [] || !IsSpace(TrimEnd(s)[|TrimEnd(s)| - 1])
    ensures IsBlank(s[|TrimEnd(s)|..])
    decreases |s|
  {
    if |s| > 0 && IsSpace(s[|s| - 1]) {
      var t := s[..|s| - 1];
      TrimEndCuts(t);
      var r := TrimEnd(s);
      assert t[..|r|] == s[..|r|];
      forall k | |r| <= k < |s| ensures IsSpace(s[k]) {
        if k < |s| - 1 { assert s[k] == t[|r|..][k - |r|]; }
      }
    }
  }

  /** `r` sits in `s` at offset `i` with nothing but white space around it. */
  predicate TrimmedAt(s: string, r: string, i: int) {
    0 <= i <= |s| - |r| && r == s[i..i + |r|] && IsBlank(s[..i]) && IsBlank(s[i + |r|..])
  }

  /** `s.trim()`: the longest slice of `s` that neither starts nor ends with white space. */
  function Trim(s: string): string {
    TrimEnd(TrimStart(s))
  }

  /** What `trim` promises: a slice of the input with only white space cut from either end and none
      left at either end of the result, which is empty exactly when the input is blank. */
  lemma TrimSpec(s: string)
    ensures exists i :: TrimmedAt(s, Trim(s), i)
    ensures Trim(s) == [] || (!IsSpace(Trim(s)[0]) && !IsSpace(Trim(s)[|Trim(s)| - 1]))
    ensures Trim(s) == [] <==> IsBlank(s)
  {
    var t := TrimStart(s);
    var r := Trim(s);
    TrimStartCuts(s);
    TrimEndCuts(t);
    TrimSlices(s);
    if r != [] {
      assert r[0] == t[0];
    }
    TrimBlank(s, r, |s| - |t|);
  }

  lemma TrimSlices(s: string)
    ensures TrimmedAt(s, TrimEnd(TrimStart(s)), |s| - |TrimStart(s)|)
  {
    var t := TrimStart(s);
    var r := TrimEnd(t);
    TrimStartCuts(s);
    TrimEndCuts(t);
    var i := |s| - |t|;
    assert s[i..] == t;
    assert s[i..i + |r|] == r;
    assert s[i + |r|..] == t[|r|..];
    assert TrimmedAt(s, r, i);
  }

  lemma TrimBlank(s: string, r: string, i: int)
    requires TrimmedAt(s, r, i)
    requires r == [] || !IsSpace(r[0])
    ensures r == [] <==> IsBlank(s)
  {
    if r == [] {
      assert s == s[..i] + s[i..];
      BlankConcat(s[..i], s[i..]);
    }
  }

  lemma BlankConcat(a: string, b: string)
    requires IsBlank(a) && IsBlank(b)
    ensures IsBlank(a + b)
  {
    forall k | 0 <= k < |a + b| ensures IsSpace((a + b)[k]) {
      if k < |a| { assert (a + b)[k] == a[k]; } else { assert (a + b)[k] == b[k - |a|]; }
    }
  }

  /** Trimming is idempotent: a trimmed string is its own trim. */
  lemma TrimIdempotent(s: string)
    ensures Trim(Trim(s)) == Trim(s)
  {
    var r := Trim(s);
    TrimSpec(s);
    assert TrimStart(r) == r;
    assert TrimEnd(r) == r;
  }

  /** Trimming only removes characters. */
  lemma TrimKeepsCharacters(s: string, c: char)
    requires c !in s
    ensures c !in Trim(s)
  {
    var r := Trim(s);
    TrimSpec(s);
    var i :| TrimmedAt(s, r, i);
  }

  /** ASCII case folding of one character. */
  function LowerChar(c: char): char {
    if 'A' <= c <= 'Z' then (c as int - 'A' as int + 'a' as int) as char else c
  }

  /** `s.toLowerCase()`, restricted to the ASCII letters. */
  function Lower(s: string): (r: string)
    ensures |r| == |s| && forall k :: 0 <= k < |s| ==> r[k] == LowerChar(s[k])
  {
    seq(|s|, k requires 0 <= k < |s| => LowerChar(s[k]))
  }

  /** Lower-casing leaves no upper-case letter behind, lowers each upper-case letter to its
      lower-case partner and keeps every other character as it was. */
  lemma LowerFolds(s: string)
    ensures |Lower(s)| == |s|
    ensures forall k :: 0 <= k < |s| ==> !('A' <= Lower(s)[k] <= 'Z')
    ensures forall k :: 0 <= k < |s| && !('A' <= s[k] <= 'Z') ==> Lower(s)[k] == s[k]
    ensures forall k :: 0 <= k < |s| && 'A' <= s[k] <= 'Z' ==> Lower(s)[k] as int == s[k] as int + 32
  {
  }

  /** Lower-casing twice is lower-casing once. */
  lemma LowerIdempotent(s: string)
    ensures Lower(Lower(s)) == Lower(s)
  {
    LowerFolds(s);
  }

  /** A lower-case letter occurs in a lower-cased string only where either case of it occurred. */
  lemma LowerAvoids(s: string, c: char)
    requires 'a' <= c <= 'z' && c !in s && (c as int - 'a' as int + 'A' as int) as char !in s
    ensures c !in Lower(s)
  {
  }

  /** A piece starting with a lower-case letter that occurs in `s` in neither case is not included
      in the lower-cased `s`. */
  lemma LowerMisses(s: string, sub: string)
    requires sub != [] && 'a' <= sub[0] <= 'z'
    requires sub[0] !in s && (sub[0] as int - 'a' as int + 'A' as int) as char !in s
    ensures !Contains(Lower(s), sub)
  {
    LowerAvoids(s, sub[0]);
    AbsentInitial(Lower(s), sub);
  }

  /** `s.startsWith(p)`. */
  predicate StartsWith(s: string, p: string) {
    p <= s
  }

  /** `s.includes(sub)`: `sub` occurs in `s` as a contiguous piece. */
  predicate Contains(s: string, sub: string)
    decreases |s|
  {
    sub <= s || (|s| > 0 && Contains(s[1..], sub))
  }

  /** `sub` occurs in `s` starting at offset `i`. */
  predicate OccursAt(s: string, sub: string, i: int) {
    0 <= i <= |s| - |sub| && s[i..i + |sub|] == sub
  }

  /** `includes` finds exactly the pieces that sit at some offset of `s`. */
  lemma {:induction false} ContainsAt(s: string, sub: string)
    ensures Contains(s, sub) <==> exists i :: OccursAt(s, sub, i)
  {
    if sub <= s {
      assert OccursAt(s, sub, 0);
    } else {
      assert !OccursAt(s, sub, 0);
      if |s| > 0 {
        ContainsAt(s[1..], sub);
        if exists i :: OccursAt(s, sub, i) {
          var i :| OccursAt(s, sub, i);
          assert s[1..][i - 1..i - 1 + |sub|] == s[i..i + |sub|];
          assert OccursAt(s[1..], sub, i - 1);
        }
        if Contains(s[1..], sub) {
          var i :| OccursAt(s[1..], sub, i);
          assert s[1..][i..i + |sub|] == s[i + 1..i + 1 + |sub|];
          assert OccursAt(s, sub, i + 1);
        }
      }
    }
  }

  /** A piece whose first character is absent from `s` is not included in `s`. */
  lemma AbsentInitial(s: string, sub: string)
    requires sub != [] && sub[0] !in s
    ensures !Contains(s, sub)
  {
    ContainsAt(s, sub);
    if exists i :: OccursAt(s, sub, i) {
      var i :| OccursAt(s, sub, i);
    }
  }

  /** `s.split(sep)` in JavaScript and `s.split(sep)` in Python, for a one-character separator:
      the pieces between separators, empty ones included; never an empty list. */
  function Split(s: string, sep: char): (r: seq<string>)
    ensures |r| >= 1
    ensures forall k :: 0 <= k < |r| ==> sep !in r[k]
    decreases |s|
  {
    if s == [] then [[]]
    else
      var rest := Split(s[1..], sep);
      if s[0] == sep then [[]] + rest
      else [[s[0]] + rest[0]] + rest[1..]
  }

  /** `sep.join(pieces)` / `pieces.join(sep)`. */
  function Join(pieces: seq<string>, sep: string): string
  {
    if |pieces| == 0 then []
    else if |pieces| == 1 then pieces[0]
    else pieces[0] + sep + Join(pieces[1..], sep)
  }

  /** Joining the pieces of a split gives back the string. */
  lemma {:induction false} JoinSplit(s: string, sep: char)
    ensures Join(Split(s, sep), [sep]) == s
  {
    if s != [] {
      var rest := Split(s[1..], sep);
      JoinSplit(s[1..], sep);
      if s[0] != sep && |rest| > 1 {
        assert rest == [rest[0]] + rest[1..];
      }
    }
  }

  /** A string without the separator is one piece. */
  lemma {:induction false} SplitWithoutSeparator(a: string, sep: char)
    requires sep !in a
    ensures Split(a, sep) == [a]
  {
    if a != [] {
      SplitWithoutSeparator(a[1..], sep);
      assert [a[0]] + a[1..] == a;
    }
  }

  /** A split yields more than one piece exactly when the separator occurs. */
  lemma SplitPieces(s: string, sep: char)
    ensures |Split(s, sep)| == 1 <==> sep !in s
  {
    JoinSplit(s, sep);
    if sep !in s { SplitWithoutSeparator(s, sep); }
  }

  /** Splitting at the first separator: the part before it is the first piece. */
  lemma {:induction false} SplitAtSeparator(a: string, sep: char, b: string)
    requires sep !in a
    ensures Split(a + [sep] + b, sep) == [a] + Split(b, sep)
  {
    if a == [] {
      assert a + [sep] + b == [sep] + b;
      assert ([sep] + b)[1..] == b;
    } else {
      var s := a + [sep] + b;
      assert s[1..] == a[1..] + [sep] + b;
      SplitAtSeparator(a[1..], sep, b);
      assert [a[0]] + a[1..] == a;
    }
  }

  /** Splitting a join of separator-free pieces gives back the pieces. */
  lemma {:induction false} SplitJoin(pieces: seq<string>, sep: char)
    requires |pieces| >= 1
    requires forall k :: 0 <= k < |pieces| ==> sep !in pieces[k]
    ensures Split(Join(pieces, [sep]), sep) == pieces
  {
    if |pieces| == 1 {
      SplitWithoutSeparator(pieces[0], sep);
    } else {
      SplitJoin(pieces[1..], sep);
      SplitAtSeparator(pieces[0], sep, Join(pieces[1..], [sep]));
      assert pieces[0] + [sep] + Join(pieces[1..], [sep]) == Join(pieces, [sep]);
      assert [pieces[0]] + pieces[1..] == pieces;
    }
  }

  /** The first piece of a split is everything before the first separator. */
  lemma FirstPiece(s: string, sep: char)
    ensures var p := Split(s, sep)[0];
            p <= s && (|p| == |s| || s[|p|] == sep)
  {
    JoinSplit(s, sep);
    var r := Split(s, sep);
    if |r| > 1 {
      assert r == [r[0]] + r[1..];
      assert Join(r, [sep]) == r[0] + [sep] + Join(r[1..], [sep]);
    }
  }

  /** `p` is the run between the separator at `i`, the first one in `s`, and the next separator or
      the end of `s`. */
  predicate PieceAfter(s: string, sep: char, p: string, i: int) {
    && 0 <= i < |s| && s[i] == sep && sep !in s[..i]
    && p <= s[i + 1..] && (i + 1 + |p| == |s| || s[i + 1 + |p|] == sep)
  }

  /** `s.split(sep)[1]`, the second piece, which exists exactly when the separator occurs. */
  function SecondPiece(s: string, sep: char): (r: Option<string>)
    ensures r.None? <==> sep !in s
    ensures r.Some? ==> sep !in r.value && exists i :: PieceAfter(s, sep, r.value, i)
  {
    SplitPieces(s, sep);
    if sep in s then
      SecondPieceAfter(s, sep);
      Some(Split(s, sep)[1])
    else None
  }

  /** The first separator of a string that has one. */
  lemma {:induction false} FirstSeparator(s: string, sep: char) returns (i: int)
    requires sep in s
    ensures 0 <= i < |s| && s[i] == sep && sep !in s[..i]
  {
    if s[0] == sep {
      i := 0;
    } else {
      var j := FirstSeparator(s[1..], sep);
      i := j + 1;
      assert s[..i] == [s[0]] + s[1..][..j];
    }
  }

  /** The second piece of a split is what follows the first separator, up to the next one. */
  lemma SecondPieceAfter(s: string, sep: char)
    requires sep in s
    ensures |Split(s, sep)| >= 2 && exists i :: PieceAfter(s, sep, Split(s, sep)[1], i)
  {
    var i := FirstSeparator(s, sep);
    var a, b := s[..i], s[i + 1..];
    assert s == a + [sep] + b;
    SplitAtSeparator(a, sep, b);
    FirstPiece(b, sep);
    assert PieceAfter(s, sep, Split(s, sep)[1], i);
  }
}
