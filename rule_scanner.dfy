/**
 * The scan `_look_for_pools_in_irules` runs over an iRule's text:
 *   re.findall('(?m)(?:^|[^#][\s]+)pool\s+([^\s]+)', content)
 * written out as the search the regular expression engine performs. At each
 * position the `^` alternative (start of text or of a line) is tried first,
 * then `[^#][\s]+`: one character other than `#` (a newline included)
 * followed by whitespace. `\s` is Python 2's ASCII whitespace, as no
 * UNICODE flag is given. Whitespace runs are taken whole: giving any back
 * cannot help, as neither `pool` nor the argument starts with whitespace.
 * After a match the scan resumes where the match ended.
 */
module RuleScanner {
  import opened Wrappers

  /** `\s`: space, tab, newline, carriage return, vertical tab, form feed. */
  predicate IsSpace(c: char) {
    c == ' ' || c == '\t' || c == '\n' || c == '\r' || c == '\U{B}' || c == '\U{C}'
  }

  /** End of the run of whitespace starting at `i`. */
  function SpaceEnd(s: string, i: nat): (n: nat)
    requires i <= |s|
    ensures i <= n <= |s|
    decreases |s| - i
  {
    if i == |s| || !IsSpace(s[i]) then i else SpaceEnd(s, i + 1)
  }

  /** End of the run of non-whitespace characters starting at `i`. */
  function WordEnd(s: string, i: nat): (n: nat)
    requires i <= |s|
    ensures i <= n <= |s|
    decreases |s| - i
  {
    if i == |s| || IsSpace(s[i]) then i else WordEnd(s, i + 1)
  }

  predicate KeywordAt(s: string, k: nat) {
    k + 4 <= |s| && s[k] == 'p' && s[k + 1] == 'o' && s[k + 2] == 'o' && s[k + 3] == 'l'
  }

  /** A match: where its `pool` starts, and where the captured argument starts and ends. */
  datatype Hit = Hit(keyword: nat, token: nat, end: nat)

  /** `pool\s+([^\s]+)` from position `k`. */
  function TailAt(s: string, k: nat): (r: Option<Hit>)
    requires k <= |s|
    ensures r.Some? ==> r.value.keyword == k && k + 4 < r.value.token < r.value.end <= |s|
  {
    if !KeywordAt(s, k) then None
    else
      var t := SpaceEnd(s, k + 4);
      var e := WordEnd(s, t);
      if t > k + 4 && e > t then Some(Hit(k, t, e)) else None
  }

  /** The whole pattern tried at position `p`. */
  function MatchAt(s: string, p: nat): (r: Option<Hit>)
    requires p <= |s|
    ensures r.Some? ==> p <= r.value.keyword && r.value.keyword + 4 < r.value.token < r.value.end <= |s|
  {
    var atLineStart := if p == 0 || s[p - 1] == '\n' then TailAt(s, p) else None;
    if atLineStart.Some? then atLineStart
    else if p < |s| && s[p] != '#' then
      var k := SpaceEnd(s, p + 1);
      if k > p + 1 then TailAt(s, k) else None
    else None
  }

  /** `findall` from position `p`: the successive non-overlapping matches. */
  function FindAll(s: string, p: nat): (hits: seq<Hit>)
    requires p <= |s|
    ensures forall i | 0 <= i < |hits| :: p <= hits[i].keyword && hits[i].keyword + 4 < hits[i].token < hits[i].end <= |s|
    decreases |s| - p
  {
    if p == |s| then []
    else
      match MatchAt(s, p)
      case Some(h) => [h] + FindAll(s, h.end)
      case None => FindAll(s, p + 1)
  }

  /** The captured group of each match. */
  function Arguments(s: string, hits: seq<Hit>): (args: seq<string>)
    requires forall i | 0 <= i < |hits| :: hits[i].token < hits[i].end <= |s|
    ensures |args| == |hits|
    ensures forall i | 0 <= i < |hits| :: args[i] == s[hits[i].token..hits[i].end]
  {
    if hits == [] then [] else [s[hits[0].token..hits[0].end]] + Arguments(s, hits[1..])
  }

  /** An argument that looks like a variable (`$`) or a command (`[`). */
  predicate LooksDynamic(arg: string)
    requires arg != []
  {
    arg[0] == '$' || arg[0] == '['
  }

  /** Drops the arguments that look dynamic, keeping the order of the rest. */
  function DropDynamic(args: seq<string>): (names: seq<string>)
    requires forall i | 0 <= i < |args| :: args[i] != []
    ensures forall name | name in names :: name in args && !LooksDynamic(name)
    ensures forall i | 0 <= i < |args| :: !LooksDynamic(args[i]) ==> args[i] in names
    ensures |names| <= |args|
  {
    if args == [] then []
    else if LooksDynamic(args[0]) then DropDynamic(args[1..])
    else [args[0]] + DropDynamic(args[1..])
  }

  /** The pool names `_look_for_pools_in_irules` goes on to register for one iRule. */
  function PoolNames(content: string): (names: seq<string>)
  {
    var hits := FindAll(content, 0);
    var args := Arguments(content, hits);
    assert forall i | 0 <= i < |args| :: args[i] != [] by {
      forall i | 0 <= i < |args| ensures args[i] != [] {
        assert |args[i]| == hits[i].end - hits[i].token;
      }
    }
    DropDynamic(args)
  }

  ghost predicate AllSpace(s: string, i: nat, j: nat)
    requires i <= j <= |s|
  {
    forall m | i <= m < j :: IsSpace(s[m])
  }

  /** What may stand before `pool`: the start of a line, or whitespace following a character other than `#`. */
  ghost predicate Anchored(s: string, k: nat)
    requires k <= |s|
  {
    k == 0 || s[k - 1] == '\n' || exists q | 0 <= q && q + 1 < k :: s[q] != '#' && AllSpace(s, q + 1, k)
  }

  /** A match in the pattern's own terms: an anchored `pool`, whitespace, and the longest run of non-whitespace. */
  ghost predicate ValidHit(s: string, h: Hit) {
    && h.keyword + 4 < h.token < h.end <= |s|
    && KeywordAt(s, h.keyword)
    && Anchored(s, h.keyword)
    && AllSpace(s, h.keyword + 4, h.token)
    && (forall m | h.token <= m < h.end :: !IsSpace(s[m]))
    && (h.end == |s| || IsSpace(s[h.end]))
  }

  lemma {:induction false} SpaceEndMaximal(s: string, i: nat)
    requires i <= |s|
    ensures AllSpace(s, i, SpaceEnd(s, i))
    ensures SpaceEnd(s, i) == |s| || !IsSpace(s[SpaceEnd(s, i)])
    decreases |s| - i
  {
    if i < |s| && IsSpace(s[i]) {
      SpaceEndMaximal(s, i + 1);
    }
  }

  lemma {:induction false} WordEndMaximal(s: string, i: nat)
    requires i <= |s|
    ensures forall m | i <= m < WordEnd(s, i) :: !IsSpace(s[m])
    ensures WordEnd(s, i) == |s| || IsSpace(s[WordEnd(s, i)])
    decreases |s| - i
  {
    if i < |s| && !IsSpace(s[i]) {
      WordEndMaximal(s, i + 1);
    }
  }

  lemma TailSound(s: string, k: nat)
    requires k <= |s| && Anchored(s, k) && TailAt(s, k).Some?
    ensures ValidHit(s, TailAt(s, k).value)
  {
    SpaceEndMaximal(s, k + 4);
    WordEndMaximal(s, SpaceEnd(s, k + 4));
  }

  /** Every match of the scan has the shape the pattern describes. */
  lemma MatchSound(s: string, p: nat)
    requires p <= |s| && MatchAt(s, p).Some?
    ensures ValidHit(s, MatchAt(s, p).value)
  {
    if (p == 0 || s[p - 1] == '\n') && TailAt(s, p).Some? {
      TailSound(s, p);
    } else {
      var k := SpaceEnd(s, p + 1);
      SpaceEndMaximal(s, p + 1);
      assert s[p] != '#' && AllSpace(s, p + 1, k);
      TailSound(s, k);
    }
  }

  lemma {:induction false} FindAllSound(s: string, p: nat)
    requires p <= |s|
    ensures forall i | 0 <= i < |FindAll(s, p)| :: ValidHit(s, FindAll(s, p)[i])
    decreases |s| - p
  {
    if p < |s| {
      match MatchAt(s, p)
      case Some(h) =>
        MatchSound(s, p);
        FindAllSound(s, h.end);
      case None =>
        FindAllSound(s, p + 1);
    }
  }

  /** The scan finds nothing exactly when the pattern matches at no position from `p` on. */
  lemma {:induction false} FindAllEmpty(s: string, p: nat)
    requires p <= |s|
    ensures FindAll(s, p) == [] <==> forall q | p <= q <= |s| :: MatchAt(s, q).None?
    decreases |s| - p
  {
    if p < |s| && MatchAt(s, p).None? {
      FindAllEmpty(s, p + 1);
    }
  }

  /**
   * The scan carries on after each match, as `findall` does: its first hit is
   * the match at the leftmost position from `p` where the pattern matches,
   * and the remaining hits are the scan resumed where that match ended.
   */
  lemma {:induction false} FindAllNext(s: string, p: nat)
    requires p <= |s| && FindAll(s, p) != []
    ensures exists q | p <= q < |s| ::
      && MatchAt(s, q) == Some(FindAll(s, p)[0])
      && (forall q' | p <= q' < q :: MatchAt(s, q').None?)
    ensures FindAll(s, p)[1..] == FindAll(s, FindAll(s, p)[0].end)
    decreases |s| - p
  {
    match MatchAt(s, p)
    case Some(h) =>
      assert MatchAt(s, p) == Some(FindAll(s, p)[0]);
    case None =>
      FindAllNext(s, p + 1);
      var q :| p + 1 <= q < |s| && MatchAt(s, q) == Some(FindAll(s, p + 1)[0])
        && (forall q' | p + 1 <= q' < q :: MatchAt(s, q').None?);
      assert forall q' | p <= q' < q :: MatchAt(s, q').None?;
  }

  /** After the last hit the pattern matches at no further position. */
  lemma {:induction false} FindAllLast(s: string, p: nat)
    requires p <= |s| && FindAll(s, p) != []
    ensures var last := FindAll(s, p)[|FindAll(s, p)| - 1];
      forall q | last.end <= q <= |s| :: MatchAt(s, q).None?
    decreases |s| - p
  {
    var hits := FindAll(s, p);
    match MatchAt(s, p)
    case Some(h) =>
      var rest := FindAll(s, h.end);
      assert hits == [h] + rest;
      if rest == [] {
        FindAllEmpty(s, h.end);
      } else {
        FindAllLast(s, h.end);
        assert hits[|hits| - 1] == rest[|rest| - 1];
      }
    case None =>
      assert hits == FindAll(s, p + 1);
      FindAllLast(s, p + 1);
  }

  lemma {:induction false} SpaceEndOf(s: string, i: nat, t: nat)
    requires i <= t <= |s| && AllSpace(s, i, t)
    requires t == |s| || !IsSpace(s[t])
    ensures SpaceEnd(s, i) == t
    decreases t - i
  {
    if i < t {
      SpaceEndOf(s, i + 1, t);
    }
  }

  lemma {:induction false} WordEndOf(s: string, i: nat, e: nat)
    requires i <= e <= |s|
    requires forall m | i <= m < e :: !IsSpace(s[m])
    requires e == |s| || IsSpace(s[e])
    ensures WordEnd(s, i) == e
    decreases e - i
  {
    if i < e {
      WordEndOf(s, i + 1, e);
    }
  }

  /** The tail of a match in the pattern's terms is exactly what the scanner reads from its `pool`. */
  lemma TailComplete(s: string, h: Hit)
    requires ValidHit(s, h)
    ensures TailAt(s, h.keyword) == Some(h)
  {
    SpaceEndOf(s, h.keyword + 4, h.token);
    WordEndOf(s, h.token, h.end);
  }

  /** Wherever the pattern matches, the scanner tries a position that yields a match. */
  lemma MatchComplete(s: string, h: Hit) returns (p: nat)
    requires ValidHit(s, h)
    ensures p <= h.keyword && MatchAt(s, p).Some?
  {
    var k := h.keyword;
    TailComplete(s, h);
    if k == 0 || s[k - 1] == '\n' {
      p := k;
    } else {
      var q :| 0 <= q && q + 1 < k && s[q] != '#' && AllSpace(s, q + 1, k);
      SpaceEndOf(s, q + 1, k);
      p := q;
    }
  }

  /** Completeness: the scan reports nothing exactly when the pattern matches nowhere in the text. */
  lemma FindAllEmptyIff(s: string)
    ensures FindAll(s, 0) == [] <==> forall h: Hit :: !ValidHit(s, h)
  {
    FindAllEmpty(s, 0);
    FindAllSound(s, 0);
    if FindAll(s, 0) == [] {
      forall h: Hit | ValidHit(s, h) ensures false {
        var p := MatchComplete(s, h);
      }
    } else {
      assert ValidHit(s, FindAll(s, 0)[0]);
    }
  }

  /** `pool` glued to a preceding word (`mypool x`) is never matched: a match follows a line start or whitespace. */
  lemma EmbeddedKeywordSkipped(s: string, i: nat)
    requires i < |FindAll(s, 0)|
    ensures var k := FindAll(s, 0)[i].keyword; k == 0 || IsSpace(s[k - 1])
  {
    FindAllSound(s, 0);
    var k := FindAll(s, 0)[i].keyword;
    if k > 0 && s[k - 1] != '\n' {
      var q :| 0 <= q && q + 1 < k && s[q] != '#' && AllSpace(s, q + 1, k);
      assert IsSpace(s[k - 1]);
    }
  }

  /** A commented-out `# pool x` is never matched. */
  lemma CommentedKeywordSkipped(s: string, i: nat)
    requires i < |FindAll(s, 0)|
    ensures var k := FindAll(s, 0)[i].keyword; !(k >= 2 && s[k - 2] == '#' && s[k - 1] == ' ')
  {
    FindAllSound(s, 0);
    var k := FindAll(s, 0)[i].keyword;
    if k >= 2 && s[k - 1] == ' ' {
      var q :| 0 <= q && q + 1 < k && s[q] != '#' && AllSpace(s, q + 1, k);
      assert q + 2 < k ==> IsSpace(s[k - 2]);
    }
  }

  predicate SpaceFree(w: string) {
    forall m | 0 <= m < |w| :: !IsSpace(w[m])
  }

  lemma ArgumentsShape(s: string)
    ensures forall arg | arg in Arguments(s, FindAll(s, 0)) :: arg != [] && SpaceFree(arg)
  {
    var hits := FindAll(s, 0);
    var args := Arguments(s, hits);
    FindAllSound(s, 0);
    forall j | 0 <= j < |args| ensures args[j] != [] && SpaceFree(args[j]) {
      var h := hits[j];
      assert ValidHit(s, h);
      WordSpaceFree(s, h.token, h.end);
    }
  }

  lemma WordSpaceFree(s: string, t: nat, e: nat)
    requires t <= e <= |s|
    requires forall m | t <= m < e :: !IsSpace(s[m])
    ensures SpaceFree(s[t..e])
  {
    forall m | 0 <= m < e - t ensures !IsSpace(s[t..e][m]) {
      assert s[t..e][m] == s[t + m];
    }
  }

  /** What gets registered: non-empty, whitespace-free arguments that start with neither `$` nor `[`. */
  lemma PoolNamesShape(content: string)
    ensures forall name | name in PoolNames(content) :: name != [] && !LooksDynamic(name) && SpaceFree(name)
  {
    ArgumentsShape(content);
  }

  /** A text that opens with `pool NAME` registers NAME first, whatever follows the whitespace after it. */
  lemma LeadingStatementRegistered(name: string, rest: string)
    requires name != [] && SpaceFree(name) && !LooksDynamic(name)
    requires rest == [] || IsSpace(rest[0])
    ensures var names := PoolNames("pool " + name + rest); names != [] && names[0] == name
  {
    var s := "pool " + name + rest;
    var h := Hit(0, 5, 5 + |name|);
    assert s[5..5 + |name|] == name;
    assert forall m | 5 <= m < 5 + |name| :: s[m] == name[m - 5];
    assert ValidHit(s, h);
    TailComplete(s, h);
    assert FindAll(s, 0) == [h] + FindAll(s, h.end);
  }

  /** A scan from `p` is empty when every match in the pattern's terms has its keyword before `p`. */
  lemma FindAllNoneFrom(s: string, p: nat)
    requires p <= |s|
    requires forall h | ValidHit(s, h) :: h.keyword < p
    ensures FindAll(s, p) == []
  {
    forall q | p <= q <= |s| ensures MatchAt(s, q).None? {
      if MatchAt(s, q).Some? {
        MatchSound(s, q);
      }
    }
    FindAllEmpty(s, p);
  }

  /** In the example text, every match in the pattern's terms is the leading statement. */
  lemma ExampleOnlyLeadingStatement(s: string)
    requires s == "pool /P/poolA\n# pool /P/poolB\n"
    ensures forall h | ValidHit(s, h) :: h.keyword < 13
  {
    assert !IsSpace(s[14]) && !IsSpace(s[23]);
    forall h | ValidHit(s, h) ensures h.keyword < 13 {
    }
  }

  /** A text whose only statement opens it is scanned to exactly that statement. */
  lemma SoleLeadingStatement(s: string, h: Hit)
    requires ValidHit(s, h) && h.keyword == 0
    requires forall h' | ValidHit(s, h') :: h'.keyword < h.end
    ensures FindAll(s, 0) == [h]
  {
    TailComplete(s, h);
    FindAllNoneFrom(s, h.end);
  }

  /** The example text opens with the statement `pool /P/poolA`. */
  lemma ExampleLeadingStatement(s: string)
    requires s == "pool /P/poolA\n# pool /P/poolB\n"
    ensures ValidHit(s, Hit(0, 5, 13)) && s[5..13] == "/P/poolA"
  {
    assert IsSpace(s[4]) && IsSpace(s[13]);
    assert forall m | 5 <= m < 13 :: !IsSpace(s[m]);
    var name := "/P/poolA";
    assert forall m | 0 <= m < 8 :: s[5..13][m] == s[5 + m] == name[m];
  }

  /**
   * The commented second statement of an iRule is not registered:
   * `pool /P/poolA` followed by `# pool /P/poolB` registers `/P/poolA` only.
   */
  lemma CommentedStatementExample(s: string)
    requires s == "pool /P/poolA\n# pool /P/poolB\n"
    ensures PoolNames(s) == ["/P/poolA"]
  {
    ExampleLeadingStatement(s);
    ExampleOnlyLeadingStatement(s);
    SoleLeadingStatement(s, Hit(0, 5, 13));
  }
}
