/**
 * The handful of Python string operations the topology resolver relies on:
 * `str.startswith`, `in` on strings, `str.count(c)`, `str.split(c)` and the
 * argument-less `unicode.split()` of Python 2.7.
 */
module Strings {

  /** `s.startswith(prefix)` */
  predicate StartsWith(s: string, prefix: string) {
    |prefix| <= |s| && s[..|prefix|] == prefix
  }

  /** `sub in s` (case-sensitive substring test) */
  predicate Contains(s: string, sub: string)
    decreases |s|
  {
    |sub| <= |s| && (s[..|sub|] == sub || Contains(s[1..], sub))
  }

  /** Every occurrence of `sub` at a position of `s` makes `sub in s` true. */
  lemma {:induction false} ContainsAt(s: string, sub: string, i: nat)
    requires i + |sub| <= |s| && s[i..i + |sub|] == sub
    ensures Contains(s, sub)
    decreases i
  {
    if i > 0 {
      assert s[1..][i - 1..i - 1 + |sub|] == s[i..i + |sub|];
      ContainsAt(s[1..], sub, i - 1);
    }
  }

  /** Conversely, `sub in s` names an occurrence. */
  lemma {:induction false} ContainsWitness(s: string, sub: string) returns (i: nat)
    requires Contains(s, sub)
    ensures i + |sub| <= |s| && s[i..i + |sub|] == sub
    decreases |s|
  {
    if s[..|sub|] == sub {
      i := 0;
    } else {
      var j := ContainsWitness(s[1..], sub);
      assert s[1..][j..j + |sub|] == s[j + 1..j + 1 + |sub|];
      i := j + 1;
    }
  }

  /** `s.count([c])` */
  function Count(s: string, c: char): nat
    decreases |s|
  {
    if s == [] then 0 else (if s[0] == c then 1 else 0) + Count(s[1..], c)
  }

  /** `s.split(c)` for a one-character separator: the pieces between the occurrences of `c`. */
  function Split(s: string, c: char): (parts: seq<string>)
    ensures |parts| >= 1
    decreases |s|
  {
    if s == [] then [[]]
    else if s[0] == c then [[]] + Split(s[1..], c)
    else
      var rest := Split(s[1..], c);
      [[s[0]] + rest[0]] + rest[1..]
  }

  /** `c.join(parts)` */
  function Join(parts: seq<string>, c: char): string
    requires |parts| >= 1
    decreases |parts|
  {
    if |parts| == 1 then parts[0] else parts[0] + [c] + Join(parts[1..], c)
  }

  /** Splitting on `c` yields one piece more than there are occurrences of `c`, none of which holds `c`. */
  lemma {:induction false} SplitShape(s: string, c: char)
    ensures |Split(s, c)| == Count(s, c) + 1
    ensures forall i | 0 <= i < |Split(s, c)| :: c !in Split(s, c)[i]
    decreases |s|
  {
    if s != [] {
      SplitShape(s[1..], c);
      var rest := Split(s[1..], c);
      if s[0] != c {
        assert c !in [s[0]] + rest[0];
        assert forall i | 1 <= i < |rest| :: Split(s, c)[i] == rest[i];
      } else {
        assert forall i | 1 <= i < |Split(s, c)| :: Split(s, c)[i] == rest[i - 1];
      }
    }
  }

  /** Joining the pieces back with `c` gives the original string. */
  lemma {:induction false} JoinSplit(s: string, c: char)
    ensures Join(Split(s, c), c) == s
    decreases |s|
  {
    if s != [] {
      JoinSplit(s[1..], c);
      var rest := Split(s[1..], c);
      if s[0] == c {
        assert Split(s, c)[1..] == rest;
      } else if |rest| == 1 {
        assert Split(s, c) == [[s[0]] + rest[0]];
      } else {
        assert Split(s, c)[1..] == rest[1..];
        assert Join(rest, c) == rest[0] + [c] + Join(rest[1..], c);
      }
    }
  }

  /** Pieces free of `c` are recovered by splitting their join. */
  lemma {:induction false} SplitJoin(parts: seq<string>, c: char)
    requires |parts| >= 1
    requires forall i | 0 <= i < |parts| :: c !in parts[i]
    ensures Split(Join(parts, c), c) == parts
    decreases |parts|, |parts[0]|
  {
    var head := parts[0];
    if head == [] {
      if |parts| > 1 {
        SplitJoin(parts[1..], c);
        assert Join(parts, c) == [c] + Join(parts[1..], c);
        assert [[]] + parts[1..] == parts;
      }
    } else {
      var shorter := [head[1..]] + parts[1..];
      assert forall i | 1 <= i < |shorter| :: shorter[i] == parts[i];
      assert c !in shorter[0] by { assert forall x | x in head[1..] :: x in head; }
      SplitJoin(shorter, c);
      var s := Join(parts, c);
      if |parts| == 1 {
        assert s == [head[0]] + Join(shorter, c);
      } else {
        assert s == [head[0]] + Join(shorter, c);
      }
      assert s[0] == head[0] && s[1..] == Join(shorter, c);
      assert [head[0]] + shorter[0] == head;
      assert [[head[0]] + shorter[0]] + shorter[1..] == parts;
    }
  }

  /**
   * The characters Python 2.7 classifies as whitespace in a unicode string
   * (`unicode.isspace`, which `unicode.split()` splits on).
   */
  predicate IsUnicodeSpace(ch: char) {
    ('\U{9}' <= ch <= '\U{D}') || ('\U{1C}' <= ch <= '\U{20}') || ch == '\U{85}' || ch == '\U{A0}'
    || ch == '\U{1680}' || ch == '\U{180E}' || ('\U{2000}' <= ch <= '\U{200A}')
    || ch == '\U{2028}' || ch == '\U{2029}' || ch == '\U{202F}' || ch == '\U{205F}' || ch == '\U{3000}'
  }

  predicate IsWord(w: string) {
    w != [] && forall i | 0 <= i < |w| :: !IsUnicodeSpace(w[i])
  }

  /** Length of the run of non-whitespace characters that starts `s`. */
  function WordLength(s: string): (n: nat)
    ensures n <= |s|
    ensures forall i | 0 <= i < n :: !IsUnicodeSpace(s[i])
    ensures n == |s| || IsUnicodeSpace(s[n])
    decreases |s|
  {
    if s == [] || IsUnicodeSpace(s[0]) then 0 else 1 + WordLength(s[1..])
  }

  /** `s.split()`: the maximal runs of non-whitespace characters, in order. */
  function Fields(s: string): (fields: seq<string>)
    ensures forall i | 0 <= i < |fields| :: IsWord(fields[i])
    decreases |s|
  {
    if s == [] then []
    else if IsUnicodeSpace(s[0]) then Fields(s[1..])
    else
      var n := WordLength(s);
      [s[..n]] + Fields(s[n..])
  }

  /** `u' '.join(words)` */
  function JoinWords(words: seq<string>): string
    requires |words| >= 1
    decreases |words|
  {
    if |words| == 1 then words[0] else words[0] + " " + JoinWords(words[1..])
  }

  /** Whitespace-free words joined by single blanks are split back into the same words. */
  lemma {:induction false} FieldsJoinWords(words: seq<string>)
    requires |words| >= 1
    requires forall i | 0 <= i < |words| :: IsWord(words[i])
    ensures Fields(JoinWords(words)) == words
    decreases |words|
  {
    var w := words[0];
    var s := JoinWords(words);
    WordOnly(w);
    if |words| == 1 {
      WordPrefix(w, []);
      assert s[..|w|] == w && s[|w|..] == [];
    } else {
      var tail := JoinWords(words[1..]);
      FieldsJoinWords(words[1..]);
      assert s == w + (" " + tail);
      WordPrefix(w, " " + tail);
      assert s[..|w|] == w && s[|w|..] == " " + tail;
      assert (" " + tail)[1..] == tail;
      assert [w] + words[1..] == words;
    }
  }

  lemma WordOnly(w: string)
    requires IsWord(w)
    ensures WordLength(w) == |w|
  {
  }

  /** A word followed by nothing or by whitespace is exactly the first run of `w + rest`. */
  lemma {:induction false} WordPrefix(w: string, rest: string)
    requires IsWord(w)
    requires rest == [] || IsUnicodeSpace(rest[0])
    ensures WordLength(w + rest) == |w|
    decreases |w|
  {
    var s := w + rest;
    if |w| > 1 {
      assert s[1..] == w[1..] + rest;
      WordPrefix(w[1..], rest);
    } else {
      assert s[1..] == rest;
    }
  }
}
