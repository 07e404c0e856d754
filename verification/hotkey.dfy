/**
 Hotkey parsing: a shortcut such as "Command+X" becomes the set of key
 names {"cmd", "x"}. The text is lower-cased, every "command+" is rewritten
 to "cmd+", and the result is split on '+' into a set of fields.
 */
module Hotkey {
  import opened Strings

  const Sep: char := '+'

  /** Pattern and replacement of the alias rewrite applied before splitting. */
  const CommandAlias: string := "command" + [Sep]
  const CmdAlias: string := "cmd" + [Sep]

  predicate IsUpper(c: char) {
    'A' <= c <= 'Z'
  }

  function LowerChar(c: char): (r: char)
    ensures !IsUpper(r)
    ensures !IsUpper(c) ==> r == c
    ensures IsUpper(c) ==> r as int == c as int + 32
  {
    if IsUpper(c) then (c as int + 32) as char else c
  }

  /** `str.lower()`, restricted to the ASCII letters. */
  function Lower(s: string): (r: string)
    ensures |r| == |s|
    ensures forall i :: 0 <= i < |r| ==> !IsUpper(r[i])
    ensures forall i :: 0 <= i < |s| && !IsUpper(s[i]) ==> r[i] == s[i]
    ensures forall i :: 0 <= i < |s| && IsUpper(s[i]) ==> r[i] as int == s[i] as int + 32
    ensures forall i :: 0 <= i < |s| ==> (s[i] == Sep <==> r[i] == Sep)
  {
    seq(|s|, i requires 0 <= i < |s| => LowerChar(s[i]))
  }

  /** Lowering works character by character, so it distributes over concatenation. */
  lemma LowerConcat(a: string, b: string)
    ensures Lower(a + b) == Lower(a) + Lower(b)
  {
    assert forall i :: 0 <= i < |a + b| ==> Lower(a + b)[i] == (Lower(a) + Lower(b))[i];
  }

  /** Lowering is idempotent. */
  lemma LowerIdempotent(s: string)
    ensures Lower(Lower(s)) == Lower(s)
  {
  }

  /**
   `s.replace(pat, rep)`: scans left to right and replaces every
   non-overlapping occurrence of `pat`.
   */
  function ReplaceAll(s: string, pat: string, rep: string): (r: string)
    requires |pat| > 0
    ensures forall c :: c in r ==> c in s || c in rep
    decreases |s|
  {
    if |s| < |pat| then s
    else if s[..|pat|] == pat then
      assert forall c :: c in s[|pat|..] ==> c in s;
      rep + ReplaceAll(s[|pat|..], pat, rep)
    else
      assert forall c :: c in s[1..] ==> c in s;
      [s[0]] + ReplaceAll(s[1..], pat, rep)
  }

  /** An occurrence at the front is replaced, and the scan resumes after it. */
  lemma ReplaceAllAtFront(t: string, pat: string, rep: string)
    requires |pat| > 0
    ensures ReplaceAll(pat + t, pat, rep) == rep + ReplaceAll(t, pat, rep)
  {
    assert (pat + t)[..|pat|] == pat && (pat + t)[|pat|..] == t;
  }

  /** A character that does not start an occurrence is kept, and the scan moves on by one. */
  lemma ReplaceAllSkip(c: char, t: string, pat: string, rep: string)
    requires |pat| > 0
    requires !OccursAt([c] + t, pat, 0)
    ensures ReplaceAll([c] + t, pat, rep) == [c] + ReplaceAll(t, pat, rep)
  {
    assert ([c] + t)[1..] == t;
  }

  /** Without an occurrence of the pattern, replacing changes nothing. */
  lemma {:induction false} ReplaceAllNoOccurrence(s: string, pat: string, rep: string)
    requires |pat| > 0
    requires forall i :: !OccursAt(s, pat, i)
    ensures ReplaceAll(s, pat, rep) == s
    decreases |s|
  {
    if |s| >= |pat| {
      assert !OccursAt(s, pat, 0);
      forall i | 0 <= i ensures !OccursAt(s[1..], pat, i) {
        OccursAtTail(s, pat, i);
      }
      ReplaceAllNoOccurrence(s[1..], pat, rep);
      assert s == [s[0]] + s[1..];
    }
  }

  lemma OccursAtTail(s: string, pat: string, i: int)
    requires |s| >= 1 && 0 <= i
    ensures OccursAt(s[1..], pat, i) <==> OccursAt(s, pat, i + 1)
  {
    if i + |pat| <= |s| - 1 {
      assert s[1..][i..i + |pat|] == s[i + 1..i + 1 + |pat|];
    }
  }

  /** Number of occurrences of `c` in `s`. */
  function Count(s: string, c: char): nat {
    multiset(s)[c]
  }

  /**
   Replacing a pattern by a text with equally many separators keeps the
   number of separators, hence the number of fields.
   */
  lemma {:induction false} ReplaceAllKeepsCount(s: string, pat: string, rep: string, c: char)
    requires |pat| > 0
    requires Count(pat, c) == Count(rep, c)
    ensures Count(ReplaceAll(s, pat, rep), c) == Count(s, c)
    decreases |s|
  {
    if |s| < |pat| {
    } else if s[..|pat|] == pat {
      ReplaceAllKeepsCount(s[|pat|..], pat, rep, c);
      assert s == s[..|pat|] + s[|pat|..];
      assert multiset(s) == multiset(s[..|pat|]) + multiset(s[|pat|..]);
      assert multiset(rep + ReplaceAll(s[|pat|..], pat, rep))
          == multiset(rep) + multiset(ReplaceAll(s[|pat|..], pat, rep));
    } else {
      ReplaceAllKeepsCount(s[1..], pat, rep, c);
      assert s == [s[0]] + s[1..];
      assert multiset(s) == multiset([s[0]]) + multiset(s[1..]);
      assert multiset([s[0]] + ReplaceAll(s[1..], pat, rep))
          == multiset([s[0]]) + multiset(ReplaceAll(s[1..], pat, rep));
    }
  }

  /** Index of the first separator, or `|s|` when there is none. */
  function FirstSep(s: string): (i: nat)
    ensures i <= |s|
    ensures forall j :: 0 <= j < i ==> s[j] != Sep
    ensures i < |s| ==> s[i] == Sep
    decreases |s|
  {
    if s == [] || s[0] == Sep then 0 else 1 + FirstSep(s[1..])
  }

  /** `s.split("+")`: the fields between separators, empty ones included. */
  function Split(s: string): (fields: seq<string>)
    ensures |fields| >= 1
    ensures forall f :: f in fields ==> Sep !in f
    ensures forall f, c :: f in fields && c in f ==> c in s
    decreases |s|
  {
    var i := FirstSep(s);
    if i == |s| then [s]
    else
      var rest := Split(s[i + 1..]);
      assert forall c :: c in s[..i] ==> c in s;
      assert forall c :: c in s[i + 1..] ==> c in s;
      [s[..i]] + rest
  }

  /** `"+".join(fields)`, the inverse of `Split`. */
  function Join(fields: seq<string>): string
    requires |fields| >= 1
    decreases |fields|
  {
    if |fields| == 1 then fields[0]
    else fields[0] + [Sep] + Join(fields[1..])
  }

  /** Join of a list with at least two fields, unfolded once. */
  lemma JoinUnfold(head: string, rest: seq<string>)
    requires |rest| >= 1
    ensures Join([head] + rest) == head + [Sep] + Join(rest)
  {
    assert ([head] + rest)[1..] == rest;
  }

  /** Joining the fields of a split gives back the text. */
  lemma {:induction false} JoinSplit(s: string)
    ensures Join(Split(s)) == s
    decreases |s|
  {
    var i := FirstSep(s);
    if i == |s| {
      assert Split(s) == [s];
    } else {
      var head := s[..i];
      var tail := s[i + 1..];
      assert s == head + [Sep] + tail;
      assert Sep !in head;
      SplitFieldThenRest(head, tail);
      JoinSplit(tail);
      JoinUnfold(head, Split(tail));
    }
  }

  /** The first separator of a field followed by a separator is that separator. */
  lemma FirstSepAfterField(a: string, rest: string)
    requires Sep !in a
    ensures FirstSep(a + [Sep] + rest) == |a|
  {
    var s := a + [Sep] + rest;
    assert s[|a|] == Sep;
    assert forall j :: 0 <= j < |a| ==> s[j] == a[j];
  }

  lemma SplitField(a: string)
    requires Sep !in a
    ensures Split(a) == [a]
  {
    assert FirstSep(a) == |a|;
  }

  lemma SplitFieldThenRest(a: string, rest: string)
    requires Sep !in a
    ensures Split(a + [Sep] + rest) == [a] + Split(rest)
  {
    var s := a + [Sep] + rest;
    FirstSepAfterField(a, rest);
    assert s[..|a|] == a;
    assert s[|a| + 1..] == rest;
  }

  /** A text with exactly one separator splits into the two sides. */
  lemma SplitTwo(a: string, b: string)
    requires Sep !in a && Sep !in b
    ensures Split(a + [Sep] + b) == [a, b]
  {
    SplitFieldThenRest(a, b);
    SplitField(b);
  }

  /** Splitting a join of separator-free fields gives back the fields. */
  lemma {:induction false} SplitJoin(fields: seq<string>)
    requires |fields| >= 1
    requires forall f :: f in fields ==> Sep !in f
    ensures Split(Join(fields)) == fields
    decreases |fields|
  {
    if |fields| == 1 {
      SplitField(fields[0]);
    } else {
      assert fields[1..][0] == fields[1];
      SplitJoin(fields[1..]);
      SplitFieldThenRest(fields[0], Join(fields[1..]));
      assert fields == [fields[0]] + fields[1..];
    }
  }

  /** Each separator opens one more field. */
  lemma {:induction false} SplitLength(s: string)
    ensures |Split(s)| == Count(s, Sep) + 1
    decreases |s|
  {
    var i := FirstSep(s);
    var head := s[..i];
    assert Count(head, Sep) == 0 by {
      assert Sep !in head;
    }
    if i == |s| {
      assert head == s;
    } else {
      var tail := s[i + 1..];
      SplitLength(tail);
      assert s == head + [Sep] + tail;
      CountConcat(head + [Sep], tail, Sep);
      CountConcat(head, [Sep], Sep);
    }
  }

  lemma CountConcat(a: string, b: string, c: char)
    ensures Count(a + b, c) == Count(a, c) + Count(b, c)
  {
    assert multiset(a + b) == multiset(a) + multiset(b);
  }

  /** The text that is split: lower-cased, then "command+" rewritten to "cmd+". */
  function Normalize(s: string): (r: string)
    ensures NoUpper(r)
  {
    var lowered := Lower(s);
    assert forall c :: c in lowered ==> !IsUpper(c);
    assert forall c :: c in CmdAlias ==> !IsUpper(c);
    ReplaceAll(lowered, CommandAlias, CmdAlias)
  }

  /** Set of the elements of a sequence, as Python's `set(list)`. */
  function Elements(fields: seq<string>): (r: set<string>)
    ensures forall f :: f in r <==> f in fields
  {
    set f | f in fields
  }

  /** `HotkeyService._parse_hotkey`. */
  function Parse(hotkey: string): (keys: set<string>)
    ensures keys != {}
    ensures forall k :: k in keys ==> Sep !in k
    ensures forall k, c :: k in keys && c in k ==> !IsUpper(c)
    ensures forall k :: k in keys <==> k in Split(Normalize(hotkey))
  {
    var text := Normalize(hotkey);
    assert forall c :: c in text ==> !IsUpper(c);
    var fields := Split(text);
    assert fields[0] in fields;
    Elements(fields)
  }

  /** The parse is the set of fields of the normalized text. */
  lemma ParseIsFieldSet(hotkey: string)
    ensures Parse(hotkey) == Elements(Split(Normalize(hotkey)))
  {
  }

  /** Parsing ignores letter case: the result depends only on the lowered text. */
  lemma ParseIgnoresCase(a: string, b: string)
    requires Lower(a) == Lower(b)
    ensures Parse(a) == Parse(b)
  {
  }

  lemma ParseOfLowered(s: string)
    ensures Parse(Lower(s)) == Parse(s)
  {
    LowerIdempotent(s);
  }

  lemma CountFieldThenSep(a: string)
    requires Sep !in a
    ensures Count(a + [Sep], Sep) == 1
  {
    assert multiset(a + [Sep]) == multiset(a) + multiset([Sep]);
    assert multiset(a)[Sep] == 0;
  }

  /** The rewrite replaces one separator by one separator. */
  lemma AliasSeparatorCounts()
    ensures Count(CommandAlias, Sep) == 1 && Count(CmdAlias, Sep) == 1
  {
    CountFieldThenSep("command");
    CountFieldThenSep("cmd");
  }

  /** The parse has at most one key per '+'-separated field. */
  lemma ParseFieldCount(hotkey: string)
    ensures |Parse(hotkey)| <= Count(Lower(hotkey), Sep) + 1
  {
    var text := Normalize(hotkey);
    SplitLength(text);
    AliasSeparatorCounts();
    ReplaceAllKeepsCount(Lower(hotkey), CommandAlias, CmdAlias, Sep);
    ElementsAtMostLength(Split(text));
    assert Parse(hotkey) == Elements(Split(text));
  }

  lemma {:induction false} ElementsAtMostLength(fields: seq<string>)
    ensures |Elements(fields)| <= |fields|
    decreases |fields|
  {
    if fields != [] {
      ElementsAtMostLength(fields[1..]);
      assert fields == [fields[0]] + fields[1..];
      assert Elements(fields) == Elements(fields[1..]) + {fields[0]};
    }
  }

  /** No ASCII upper-case letter occurs. */
  predicate NoUpper(s: string) {
    forall i :: 0 <= i < |s| ==> !IsUpper(s[i])
  }

  /** The alias pattern does not occur. */
  ghost predicate NoCommandAlias(s: string) {
    forall i :: !OccursAt(s, CommandAlias, i)
  }

  /** Fields that already have the form the parser produces. */
  ghost predicate CanonicalFields(fields: seq<string>) {
    && |fields| >= 1
    && (forall f :: f in fields ==> Sep !in f)
    && NoUpper(Join(fields))
    && NoCommandAlias(Join(fields))
  }

  /** A text with no upper-case letter and no "command+" is split as is. */
  lemma NormalizeCanonical(s: string)
    requires NoUpper(s) && NoCommandAlias(s)
    ensures Normalize(s) == s
  {
    assert Lower(s) == s;
    ReplaceAllNoOccurrence(s, CommandAlias, CmdAlias);
  }

  /**
   For canonical fields the parse is exactly the set of fields, so their
   order and repetitions do not matter.
   */
  lemma ParseCanonicalJoin(fields: seq<string>)
    requires CanonicalFields(fields)
    ensures Parse(Join(fields)) == Elements(fields)
  {
    NormalizeCanonical(Join(fields));
    SplitJoin(fields);
  }

  lemma ParseOrderIrrelevant(fields: seq<string>, others: seq<string>)
    requires CanonicalFields(fields) && CanonicalFields(others)
    requires forall f :: f in fields <==> f in others
    ensures Parse(Join(fields)) == Parse(Join(others))
  {
    ParseCanonicalJoin(fields);
    ParseCanonicalJoin(others);
    assert Elements(fields) == Elements(others);
  }

  /** Both alias spellings are already lower case. */
  lemma AliasesLower()
    ensures Lower(CommandAlias) == CommandAlias && Lower(CmdAlias) == CmdAlias
  {
    assert forall i :: 0 <= i < |CommandAlias| ==> !IsUpper(CommandAlias[i]);
    assert forall i :: 0 <= i < |CmdAlias| ==> !IsUpper(CmdAlias[i]);
  }

  /** A leading "command+" becomes "cmd+" and the rest is normalized on its own. */
  lemma NormalizeCommandPrefix(t: string)
    ensures Normalize(CommandAlias + t) == CmdAlias + Normalize(t)
  {
    LowerConcat(CommandAlias, t);
    AliasesLower();
    ReplaceAllAtFront(Lower(t), CommandAlias, CmdAlias);
  }

  /** A character other than the pattern's first one is kept. */
  lemma ReplaceAllSkipFirst(c: char, t: string, pat: string, rep: string)
    requires |pat| > 0 && c != pat[0]
    ensures ReplaceAll([c] + t, pat, rep) == [c] + ReplaceAll(t, pat, rep)
  {
    ReplaceAllSkip(c, t, pat, rep);
  }

  /** A character followed by one that differs from the pattern's second one is kept. */
  lemma ReplaceAllSkipSecond(c: char, t: string, pat: string, rep: string)
    requires |pat| > 1 && |t| > 0 && t[0] != pat[1]
    ensures ReplaceAll([c] + t, pat, rep) == [c] + ReplaceAll(t, pat, rep)
  {
    assert !OccursAt([c] + t, pat, 0) by {
      if |pat| <= |[c] + t| {
        assert ([c] + t)[..|pat|][1] == t[0];
      }
    }
    ReplaceAllSkip(c, t, pat, rep);
  }

  /** A prefix with no character equal to the pattern's first one is kept as it is. */
  lemma {:induction false} ReplaceAllKeepsPrefix(p: string, u: string, pat: string, rep: string)
    requires |pat| > 0
    requires forall j :: 0 <= j < |p| ==> p[j] != pat[0]
    ensures ReplaceAll(p + u, pat, rep) == p + ReplaceAll(u, pat, rep)
    decreases |p|
  {
    if p == [] {
      assert p + u == u;
    } else {
      var rest := p[1..];
      assert p + u == [p[0]] + (rest + u);
      ReplaceAllSkipFirst(p[0], rest + u, pat, rep);
      ReplaceAllKeepsPrefix(rest, u, pat, rep);
      assert p == [p[0]] + rest;
    }
  }

  /** "cmd+" cannot start an occurrence of "command+": each of its characters is kept. */
  lemma ReplaceAllKeepsCmd(u: string)
    ensures ReplaceAll(CmdAlias + u, CommandAlias, CmdAlias) == CmdAlias + ReplaceAll(u, CommandAlias, CmdAlias)
  {
    var pat := CommandAlias;
    var rest := "md" + [Sep];
    assert pat[0] == 'c' && pat[1] == 'o';
    assert forall j :: 0 <= j < |rest| ==> rest[j] != pat[0];
    ReplaceAllKeepsPrefix(rest, u, pat, CmdAlias);
    assert (rest + u)[0] == 'm';
    ReplaceAllSkipSecond('c', rest + u, pat, CmdAlias);
    assert CmdAlias + u == ['c'] + (rest + u);
  }

  /** A leading "cmd+" is kept and the rest is normalized on its own. */
  lemma NormalizeCmdPrefix(t: string)
    ensures Normalize(CmdAlias + t) == CmdAlias + Normalize(t)
  {
    LowerConcat(CmdAlias, t);
    AliasesLower();
    ReplaceAllKeepsCmd(Lower(t));
  }

  /** `set([f] + rest)` is `{f}` together with the set of the rest. */
  lemma ElementsCons(f: string, rest: seq<string>)
    ensures Elements([f] + rest) == {f} + Elements(rest)
  {
  }

  /** A text that normalizes to "cmd+" followed by the normalized t parses to "cmd" plus the keys of t. */
  lemma ParseOfCmdPrefixed(s: string, t: string)
    requires Normalize(s) == CmdAlias + Normalize(t)
    ensures Parse(s) == {"cmd"} + Parse(t)
  {
    var n := Normalize(t);
    assert "cmd" + [Sep] + n == CmdAlias + n;
    SplitFieldThenRest("cmd", n);
    ElementsCons("cmd", Split(n));
    ParseIsFieldSet(s);
    ParseIsFieldSet(t);
  }

  /**
   A leading "command+" adds exactly the key "cmd" to the parse of the rest,
   whatever the rest is: "command+shift+x" parses to "cmd" plus the keys of
   "shift+x".
   */
  lemma ParseCommandPrefix(t: string)
    ensures Parse(CommandAlias + t) == {"cmd"} + Parse(t)
  {
    NormalizeCommandPrefix(t);
    ParseOfCmdPrefixed(CommandAlias + t, t);
  }

  /** The same for a leading "cmd+". */
  lemma ParseCmdPrefix(t: string)
    ensures Parse(CmdAlias + t) == {"cmd"} + Parse(t)
  {
    NormalizeCmdPrefix(t);
    ParseOfCmdPrefixed(CmdAlias + t, t);
  }

  /** The pattern's only separator is its last character, as in "command+". */
  predicate SepOnlyAtEnd(pat: string) {
    && |pat| > 0
    && pat[|pat| - 1] == Sep
    && forall j :: 0 <= j < |pat| - 1 ==> pat[j] != Sep
  }

  lemma CommandAliasSepOnlyAtEnd()
    ensures SepOnlyAtEnd(CommandAlias)
  {
    assert CommandAlias == "command" + [Sep];
    assert forall j :: 0 <= j < 7 ==> CommandAlias[j] == "command"[j];
  }

  /**
   An occurrence of such a pattern cannot start inside a shorter text that
   the pattern itself follows: its separator would fall inside the pattern.
   */
  lemma NoStraddle(p: string, pat: string, t: string)
    requires SepOnlyAtEnd(pat)
    requires 0 < |p| < |pat|
    ensures !OccursAt(p + pat + t, pat, 0)
  {
    var s := p + pat + t;
    var last := |pat| - 1;
    assert s[last] == pat[last - |p|];
  }

  /**
   Two texts that both start with an occurrence are rewritten alike up to a
   common tail `w` when what follows the occurrences is.
   */
  lemma MatchStep(x: string, y: string, w: string, pat: string, rep: string)
    requires |pat| > 0 && |x| >= |pat| && |y| >= |pat|
    requires x[..|pat|] == pat && y[..|pat|] == pat
    requires ReplaceAll(x[|pat|..], pat, rep) == ReplaceAll(y[|pat|..], pat, rep) + w
    ensures ReplaceAll(x, pat, rep) == ReplaceAll(y, pat, rep) + w
  {
    assert rep + (ReplaceAll(y[|pat|..], pat, rep) + w) == rep + ReplaceAll(y[|pat|..], pat, rep) + w;
  }

  /** A text whose first character starts no occurrence keeps that character. */
  lemma ReplaceAllUnfoldSkip(x: string, pat: string, rep: string)
    requires |pat| > 0 && |x| > 0 && !OccursAt(x, pat, 0)
    ensures ReplaceAll(x, pat, rep) == [x[0]] + ReplaceAll(x[1..], pat, rep)
  {
    if |x| < |pat| {
      assert ReplaceAll(x[1..], pat, rep) == x[1..];
      assert x == [x[0]] + x[1..];
    }
  }

  /**
   Two texts with the same first character, which starts no occurrence in
   either, are rewritten alike up to a common tail `w` when their rests are.
   */
  lemma SkipStep(x: string, y: string, w: string, pat: string, rep: string)
    requires |pat| > 0 && |x| > 0 && |y| > 0 && x[0] == y[0]
    requires !OccursAt(x, pat, 0) && !OccursAt(y, pat, 0)
    requires ReplaceAll(x[1..], pat, rep) == ReplaceAll(y[1..], pat, rep) + w
    ensures ReplaceAll(x, pat, rep) == ReplaceAll(y, pat, rep) + w
  {
    ReplaceAllUnfoldSkip(x, pat, rep);
    ReplaceAllUnfoldSkip(y, pat, rep);
    ConcatAssoc([y[0]], ReplaceAll(y[1..], pat, rep), w);
  }

  /** How `p + pat + t` looks when `p` starts with the pattern. */
  lemma AroundMatchFacts(p: string, t: string, pat: string)
    requires |pat| > 0 && |p| >= |pat| && p[..|pat|] == pat
    ensures (p + pat + t)[..|pat|] == pat
    ensures (p + pat + t)[|pat|..] == p[|pat|..] + pat + t
  {
    assert (p + pat + t)[..|pat|] == p[..|pat|];
  }

  /** How `p + pat + t` looks when `p` does not start with the pattern. */
  lemma AroundSkipFacts(p: string, t: string, pat: string)
    requires SepOnlyAtEnd(pat) && |p| > 0
    requires !(|p| >= |pat| && p[..|pat|] == pat)
    ensures !OccursAt(p, pat, 0) && !OccursAt(p + pat + t, pat, 0)
    ensures (p + pat + t)[0] == p[0]
    ensures (p + pat + t)[1..] == p[1..] + pat + t
  {
    if |p| < |pat| {
      NoStraddle(p, pat, t);
    } else {
      assert (p + pat + t)[..|pat|] == p[..|pat|];
    }
  }

  /**
   An occurrence of a pattern whose only separator comes last is replaced
   wherever it stands: the texts before and after it are rewritten on their own.
   */
  lemma {:induction false} ReplaceAllAround(p: string, t: string, pat: string, rep: string)
    requires SepOnlyAtEnd(pat)
    ensures ReplaceAll(p + pat + t, pat, rep) == ReplaceAll(p, pat, rep) + rep + ReplaceAll(t, pat, rep)
    decreases |p|
  {
    var x := p + pat + t;
    var w := rep + ReplaceAll(t, pat, rep);
    if p == [] {
      assert x == pat + t;
      ReplaceAllAtFront(t, pat, rep);
    } else if |p| >= |pat| && p[..|pat|] == pat {
      AroundMatchFacts(p, t, pat);
      ReplaceAllAround(p[|pat|..], t, pat, rep);
      ConcatAssoc(ReplaceAll(p[|pat|..], pat, rep), rep, ReplaceAll(t, pat, rep));
      MatchStep(x, p, w, pat, rep);
    } else {
      AroundSkipFacts(p, t, pat);
      ReplaceAllAround(p[1..], t, pat, rep);
      ConcatAssoc(ReplaceAll(p[1..], pat, rep), rep, ReplaceAll(t, pat, rep));
      SkipStep(x, p, w, pat, rep);
    }
  }

  /**
   A "command+" anywhere in the text becomes "cmd+", and the texts before and
   after it are normalized on their own.
   */
  lemma NormalizeAroundCommand(p: string, t: string)
    ensures Normalize(p + CommandAlias + t) == Normalize(p) + CmdAlias + Normalize(t)
  {
    LowerConcat(p + CommandAlias, t);
    LowerConcat(p, CommandAlias);
    AliasesLower();
    CommandAliasSepOnlyAtEnd();
    ReplaceAllAround(Lower(p), Lower(t), CommandAlias, CmdAlias);
  }

  /**
   A "command+" after a first field adds "cmd" next to that field, as in
   "shift+command+x". The field must not end in "command" itself, or the two
   would form another alias.
   */
  lemma ParseFieldThenCommand(k: string, t: string)
    requires Sep !in k && NoUpper(k) && NoCommandAlias(k + [Sep])
    ensures Parse(k + [Sep] + CommandAlias + t) == {k, "cmd"} + Parse(t)
  {
    var f := k + [Sep];
    assert NoUpper(f) by {
      assert forall i :: 0 <= i < |f| ==> f[i] == (if i < |k| then k[i] else Sep);
    }
    NormalizeCanonical(f);
    NormalizeAroundCommand(f, t);
    var n := Normalize(t);
    assert "cmd" + [Sep] + n == CmdAlias + n;
    assert f + CmdAlias + n == k + [Sep] + ("cmd" + [Sep] + n);
    SplitFieldThenRest("cmd", n);
    SplitFieldThenRest(k, "cmd" + [Sep] + n);
    ElementsCons("cmd", Split(n));
    ElementsCons(k, ["cmd"] + Split(n));
    ParseIsFieldSet(f + CommandAlias + t);
    ParseIsFieldSet(t);
  }
}
