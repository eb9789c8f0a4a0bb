/**
 * The target-specification parser of `htswapUpdate` (src/htswap.ts, lines 10-19):
 * `"#a->#b@innerHTML, #c"` becomes one (from, to, merge) clause per comma-separated part.
 * Splitting follows JavaScript's `String.prototype.split` with a non-empty string separator:
 * matches are found left to right without overlap, nothing is trimmed, and the empty
 * string splits into one empty part.
 */
module Targets {

  /** `s` begins with `sep`. */
  predicate StartsWith(s: string, sep: string) {
    |sep| <= |s| && s[..|sep|] == sep
  }

  /** `sep` occurs somewhere in `s`. */
  predicate Contains(s: string, sep: string) {
    exists j :: 0 <= j < |s| && StartsWith(s[j..], sep)
  }

  /** JavaScript's `s.split(sep)` for a non-empty separator. */
  function Split(s: string, sep: string): (parts: seq<string>)
    requires |sep| > 0
    ensures |parts| >= 1
    decreases |s|
  {
    if |s| < |sep| then [s]
    else if s[..|sep|] == sep then [""] + Split(s[|sep|..], sep)
    else
      var rest := Split(s[1..], sep);
      [[s[0]] + rest[0]] + rest[1..]
  }

  /** `parts.join(sep)`: the inverse of `Split`. */
  function Join(parts: seq<string>, sep: string): string
    requires |parts| >= 1
  {
    if |parts| == 1 then parts[0] else parts[0] + sep + Join(parts[1..], sep)
  }

  /**
   * No match of `sep` starts inside `a`, even one that would run on into a following `sep`.
   * This is what lets `a` be a whole part when `a + sep + ...` is split.
   */
  predicate NoEarlyMatch(a: string, sep: string) {
    forall j :: 0 <= j < |a| ==> !StartsWith((a + sep)[j..], sep)
  }

  /** Splitting never loses or adds a character: joining the parts gives back the input. */
  lemma {:induction false} JoinSplit(s: string, sep: string)
    requires |sep| > 0
    ensures Join(Split(s, sep), sep) == s
    decreases |s|
  {
    if |s| < |sep| {
    } else if s[..|sep|] == sep {
      var tail := s[|sep|..];
      JoinSplit(tail, sep);
      JoinEmptyFirst(Split(tail, sep), sep);
      assert s == sep + tail;
    } else {
      JoinSplit(s[1..], sep);
      JoinPrependChar(s[0], Split(s[1..], sep), sep);
      assert s == [s[0]] + s[1..];
    }
  }

  lemma JoinEmptyFirst(rest: seq<string>, sep: string)
    requires |rest| >= 1
    ensures Join([""] + rest, sep) == sep + Join(rest, sep)
  {
    assert ([""] + rest)[1..] == rest;
  }

  /** Putting a character in front of the first part puts it in front of the join. */
  lemma JoinPrependChar(c: char, rest: seq<string>, sep: string)
    requires |rest| >= 1
    ensures Join([[c] + rest[0]] + rest[1..], sep) == [c] + Join(rest, sep)
  {
    var parts := [[c] + rest[0]] + rest[1..];
    if |rest| > 1 {
      assert parts[1..] == rest[1..];
      assert Join(parts, sep) == ([c] + rest[0]) + sep + Join(rest[1..], sep);
      assert Join(rest, sep) == rest[0] + sep + Join(rest[1..], sep);
    }
  }

  lemma NoEarlyMatchTail(a: string, sep: string)
    requires |a| > 0 && NoEarlyMatch(a, sep)
    ensures NoEarlyMatch(a[1..], sep)
  {
    forall j | 0 <= j < |a[1..]|
      ensures !StartsWith((a[1..] + sep)[j..], sep)
    {
      assert (a[1..] + sep)[j..] == (a + sep)[j + 1..];
    }
  }

  /** A part with no early match comes out of `Split` as the first part, whatever follows it. */
  lemma {:induction false} SplitConcat(a: string, sep: string, b: string)
    requires |sep| > 0 && NoEarlyMatch(a, sep)
    ensures Split(a + sep + b, sep) == [a] + Split(b, sep)
    decreases |a|
  {
    var s := a + sep + b;
    if a == [] {
      assert s == sep + b && s[..|sep|] == sep && s[|sep|..] == b;
    } else {
      assert !StartsWith((a + sep)[0..], sep);
      assert s[..|sep|] == (a + sep)[..|sep|];
      assert s[1..] == a[1..] + sep + b;
      NoEarlyMatchTail(a, sep);
      SplitConcat(a[1..], sep, b);
      assert [a[0]] + a[1..] == a;
    }
  }

  /** A string with no early match is not split at all. */
  lemma {:induction false} SplitNone(a: string, sep: string)
    requires |sep| > 0 && NoEarlyMatch(a, sep)
    ensures Split(a, sep) == [a]
    decreases |a|
  {
    if |a| >= |sep| {
      assert !StartsWith((a + sep)[0..], sep);
      assert a[..|sep|] == (a + sep)[..|sep|];
      NoEarlyMatchTail(a, sep);
      SplitNone(a[1..], sep);
      assert [a[0]] + a[1..] == a;
    }
  }

  /** Splitting a join of parts free of the separator gives the parts back. */
  lemma {:induction false} SplitJoin(parts: seq<string>, sep: string)
    requires |sep| > 0 && |parts| >= 1
    requires forall i :: 0 <= i < |parts| ==> NoEarlyMatch(parts[i], sep)
    ensures Split(Join(parts, sep), sep) == parts
    decreases |parts|
  {
    if |parts| == 1 {
      SplitNone(parts[0], sep);
    } else {
      SplitJoin(parts[1..], sep);
      SplitConcat(parts[0], sep, Join(parts[1..], sep));
    }
  }

  /** For a one-character separator, "no early match" is plain absence of that character. */
  lemma NoEarlyMatchChar(a: string, c: char)
    requires c !in a
    ensures NoEarlyMatch(a, [c])
  {
    forall j | 0 <= j < |a|
      ensures !StartsWith((a + [c])[j..], [c])
    {
      assert (a + [c])[j..][..1] == [a[j]];
    }
  }

  /** For the alias arrow, "no early match" is absence of the arrow. */
  lemma NoEarlyMatchArrow(a: string)
    requires !Contains(a, "->")
    ensures NoEarlyMatch(a, "->")
  {
    forall j | 0 <= j < |a|
      ensures !StartsWith((a + "->")[j..], "->")
    {
      if j + 1 < |a| {
        assert (a + "->")[j..][..2] == a[j..][..2];
        assert !StartsWith(a[j..], "->");
      } else {
        assert (a + "->")[j..][..2] == [a[j], '-'];
      }
    }
  }

  /** One parsed clause: server selector, client selector and merge mode, as the source names them. */
  datatype Clause = Clause(from: string, to: string, merge: string)

  /** The merge mode of a clause without `@`. */
  const DefaultMerge: string := "outerHTML"

  /**
   * `const [sel, merge = "outerHTML"] = t.split("@")` and `const [from, to = from] = sel.split("->")`:
   * any parts after the second are ignored, and a default applies only when the part is absent.
   */
  function ParseClause(t: string): (c: Clause)
    ensures c.from <= t
    ensures c.to == c.from || c.from + "->" + c.to <= t
    ensures c.merge == DefaultMerge || Split(t, "@")[0] + "@" + c.merge <= t
  {
    var parts := Split(t, "@");
    var merge := if |parts| > 1 then parts[1] else DefaultMerge;
    var sides := Split(parts[0], "->");
    JoinSplit(t, "@");
    JoinSplit(parts[0], "->");
    PrefixOfJoin(parts, "@");
    PrefixOfJoin(sides, "->");
    SecondOfJoin(parts, "@");
    SecondOfJoin(sides, "->");
    Clause(sides[0], if |sides| > 1 then sides[1] else sides[0], merge)
  }

  function ParseAll(clauses: seq<string>): (r: seq<Clause>)
    ensures |r| == |clauses|
    ensures forall i :: 0 <= i < |clauses| ==> r[i] == ParseClause(clauses[i])
  {
    if clauses == [] then [] else [ParseClause(clauses[0])] + ParseAll(clauses[1..])
  }

  /** `target.split(",").map(...)` without the element lookup, which `Htswap.Resolve` adds. */
  function ParseTargets(target: string): (r: seq<Clause>)
    ensures |r| == |Split(target, ",")| >= 1
    ensures forall i :: 0 <= i < |r| ==> r[i] == ParseClause(Split(target, ",")[i])
    ensures ',' !in target ==> r == [ParseClause(target)]
  {
    if ',' !in target then
      NoEarlyMatchChar(target, ',');
      SplitNone(target, ",");
      ParseAll(Split(target, ","))
    else
      ParseAll(Split(target, ","))
  }

  /** The clause texts a target specification is cut into: re-joined with commas they are the specification. */
  lemma TargetsCoverSpec(target: string)
    ensures |ParseTargets(target)| == |Split(target, ",")| >= 1
    ensures Join(Split(target, ","), ",") == target
  {
    JoinSplit(target, ",");
  }

  /** Exactly one clause per comma-separated part, in the order written. */
  lemma ParseTargetsOfJoin(clauses: seq<string>)
    requires |clauses| >= 1
    requires forall i :: 0 <= i < |clauses| ==> ',' !in clauses[i]
    ensures |ParseTargets(Join(clauses, ","))| == |clauses|
    ensures forall i :: 0 <= i < |clauses| ==> ParseTargets(Join(clauses, ","))[i] == ParseClause(clauses[i])
  {
    forall i | 0 <= i < |clauses| ensures NoEarlyMatch(clauses[i], ",") {
      NoEarlyMatchChar(clauses[i], ',');
    }
    SplitJoin(clauses, ",");
  }

  /** A clause without `@` gets merge mode `outerHTML`. */
  lemma ClauseWithoutMerge(t: string)
    requires '@' !in t
    ensures ParseClause(t).merge == DefaultMerge
  {
    NoEarlyMatchChar(t, '@');
    SplitNone(t, "@");
  }

  /** A selector part without `->` uses that whole part as the selector on both sides. */
  lemma ClauseWithoutAlias(t: string)
    requires !Contains(Split(t, "@")[0], "->")
    ensures ParseClause(t).from == ParseClause(t).to == Split(t, "@")[0]
  {
    NoEarlyMatchArrow(Split(t, "@")[0]);
    SplitNone(Split(t, "@")[0], "->");
  }

  lemma PrefixOfJoin(parts: seq<string>, sep: string)
    requires |parts| >= 1
    ensures parts[0] <= Join(parts, sep)
  {
  }

  /** The first two parts, with the separator between them, begin the joined string. */
  lemma SecondOfJoin(parts: seq<string>, sep: string)
    requires |parts| >= 1
    ensures |parts| >= 2 ==> parts[0] + sep + parts[1] <= Join(parts, sep)
  {
    if |parts| == 1 {
      return;
    }
    var rest := Join(parts[1..], sep);
    PrefixOfJoin(parts[1..], sep);
    assert parts[1] <= rest;
    assert Join(parts, sep) == parts[0] + sep + rest;
    assert rest == parts[1] + rest[|parts[1]|..];
    assert Join(parts, sep) == parts[0] + sep + parts[1] + rest[|parts[1]|..];
  }

  /** `a->b@m` yields `(a, b, m)` when the pieces hold no separator of their own. */
  lemma ClauseAliasMerge(a: string, b: string, m: string)
    requires '@' !in a && '@' !in b && '@' !in m
    requires !Contains(a, "->") && !Contains(b, "->")
    ensures ParseClause(a + "->" + b + "@" + m) == Clause(a, b, m)
  {
    var sel := a + "->" + b;
    assert a + "->" + b + "@" + m == sel + "@" + m;
    NoEarlyMatchChar(sel, '@');
    NoEarlyMatchChar(m, '@');
    SplitConcat(sel, "@", m);
    SplitNone(m, "@");
    NoEarlyMatchArrow(a);
    NoEarlyMatchArrow(b);
    SplitConcat(a, "->", b);
    SplitNone(b, "->");
  }

  /** `a@m` yields `(a, a, m)`. */
  lemma ClauseMerge(a: string, m: string)
    requires '@' !in a && '@' !in m && !Contains(a, "->")
    ensures ParseClause(a + "@" + m) == Clause(a, a, m)
  {
    NoEarlyMatchChar(a, '@');
    NoEarlyMatchChar(m, '@');
    SplitConcat(a, "@", m);
    SplitNone(m, "@");
    NoEarlyMatchArrow(a);
    SplitNone(a, "->");
  }

  /** `a->b` yields `(a, b, outerHTML)`. */
  lemma ClauseAlias(a: string, b: string)
    requires '@' !in a && '@' !in b && !Contains(a, "->") && !Contains(b, "->")
    ensures ParseClause(a + "->" + b) == Clause(a, b, DefaultMerge)
  {
    NoEarlyMatchChar(a + "->" + b, '@');
    SplitNone(a + "->" + b, "@");
    NoEarlyMatchArrow(a);
    NoEarlyMatchArrow(b);
    SplitConcat(a, "->", b);
    SplitNone(b, "->");
  }

  /** A bare selector yields `(a, a, outerHTML)`. */
  lemma ClauseBare(a: string)
    requires '@' !in a && !Contains(a, "->")
    ensures ParseClause(a) == Clause(a, a, DefaultMerge)
  {
    NoEarlyMatchChar(a, '@');
    SplitNone(a, "@");
    NoEarlyMatchArrow(a);
    SplitNone(a, "->");
  }
}
