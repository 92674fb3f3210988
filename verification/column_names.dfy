/** How `retrieve_first_table` turns header texts into DataFrame column
names: `format_snake` normalises one name, `create_unique_strings`
disambiguates repeats with a `"{k}/"` prefix, and the header pipeline pads,
normalises and disambiguates a whole header row.
 */
module ColumnNames {
  import opened PyStrings

  // ---------------------------------------------------------------------------
  // format_snake

  /** The character `format_snake` puts in place of `ch`. */
  function SnakeChar(ch: char): char {
    if ch == ' ' then '_' else LowerChar(ch)
  }

  /** The character-by-character reading of `format_snake`. */
  function SnakeMap(c: string): string {
    seq(|c|, i requires 0 <= i < |c| => SnakeChar(c[i]))
  }

  /** `[w.lower() for w in parts]` */
  function LowerAll(parts: seq<string>): (r: seq<string>)
    ensures |r| == |parts|
    ensures forall k :: 0 <= k < |parts| ==> r[k] == Lower(parts[k])
  {
    seq(|parts|, k requires 0 <= k < |parts| => Lower(parts[k]))
  }

  lemma LowerAllCons(p: string, ps: seq<string>)
    ensures LowerAll([p] + ps) == [Lower(p)] + LowerAll(ps)
  {
  }

  lemma SnakeMapCons(c: string)
    requires |c| > 0
    ensures SnakeMap(c) == [SnakeChar(c[0])] + SnakeMap(c[1..])
  {
  }

  /** The step of `SplitLowerJoin` for a leading space. */
  lemma SplitLowerJoinSpace(c: string)
    requires |c| > 0 && c[0] == ' '
    requires Join("_", LowerAll(Split(c[1..], ' '))) == SnakeMap(c[1..])
    ensures Join("_", LowerAll(Split(c, ' '))) == SnakeMap(c)
  {
    var parts := Split(c[1..], ' ');
    var lowered := LowerAll(parts);
    assert Split(c, ' ') == [""] + parts;
    LowerAllCons("", parts);
    assert Lower("") == "";
    var all := [""] + lowered;
    assert all[1..] == lowered;
    assert Join("_", all) == "" + "_" + Join("_", lowered);
    SnakeMapCons(c);
  }

  /** Lower-casing and joining a word list whose first word starts with
      `ch` puts the lower-cased `ch` in front. */
  lemma JoinLowerHead(ch: char, p: string, ps: seq<string>)
    ensures Join("_", LowerAll([[ch] + p] + ps)) == [LowerChar(ch)] + Join("_", LowerAll([p] + ps))
  {
    LowerAllCons([ch] + p, ps);
    LowerAllCons(p, ps);
    assert Lower([ch] + p) == [LowerChar(ch)] + Lower(p);
    JoinConsHead("_", LowerChar(ch), Lower(p), LowerAll(ps));
  }

  /** The step of `SplitLowerJoin` for a leading non-space. */
  lemma SplitLowerJoinChar(c: string)
    requires |c| > 0 && c[0] != ' '
    requires Join("_", LowerAll(Split(c[1..], ' '))) == SnakeMap(c[1..])
    ensures Join("_", LowerAll(Split(c, ' '))) == SnakeMap(c)
  {
    var parts := Split(c[1..], ' ');
    SplitNonSeparator(c, ' ');
    JoinLowerHead(c[0], parts[0], parts[1..]);
    assert [parts[0]] + parts[1..] == parts;
    SnakeMapCons(c);
  }

  /** Splitting on spaces, lower-casing every word and joining with `_` is the
      same as mapping each character on its own. */
  lemma {:induction false} SplitLowerJoin(c: string)
    ensures Join("_", LowerAll(Split(c, ' '))) == SnakeMap(c)
    decreases |c|
  {
    if |c| == 0 {
      assert LowerAll([""]) == [""];
    } else {
      SplitLowerJoin(c[1..]);
      if c[0] == ' ' {
        SplitLowerJoinSpace(c);
      } else {
        SplitLowerJoinChar(c);
      }
    }
  }

  /** `format_snake(c)`: split on spaces, lower-case every word, join with
      `_`.  The result has one character per input character: a space becomes
      `_`, everything else is lower-cased; so no space survives. */
  function FormatSnake(c: string): (r: string)
    ensures |r| == |c|
    ensures forall i :: 0 <= i < |c| ==> r[i] == SnakeChar(c[i])
    ensures ' ' !in r
  {
    SplitLowerJoin(c);
    Join("_", LowerAll(Split(c, ' ')))
  }

  /** Normalising an already normalised name changes nothing. */
  lemma FormatSnakeIdempotent(c: string)
    ensures FormatSnake(FormatSnake(c)) == FormatSnake(c)
  {
    var r := FormatSnake(c);
    assert forall i :: 0 <= i < |r| ==> FormatSnake(r)[i] == r[i];
  }

  /** `[format_snake(c) for c in names]` */
  function SnakeAll(names: seq<string>): (r: seq<string>)
    ensures |r| == |names|
    ensures forall k :: 0 <= k < |names| ==> r[k] == FormatSnake(names[k])
  {
    seq(|names|, k requires 0 <= k < |names| => FormatSnake(names[k]))
  }

  // ---------------------------------------------------------------------------
  // create_unique_strings

  predicate Distinct(l: seq<string>) {
    forall i, j :: 0 <= i < j < |l| ==> l[i] != l[j]
  }

  /** The name tried for a repeat of `name` with counter `k`: `str(k) + '/' + name`. */
  function Tag(k: nat, name: string): (t: string)
    ensures |t| > |name|
  {
    NatToString(k) + "/" + name
  }

  lemma TagInjective(a: nat, b: nat, name: string)
    requires Tag(a, name) == Tag(b, name)
    ensures a == b
  {
    var sa, sb := NatToString(a), NatToString(b);
    assert |sa| == |sb|;
    assert sa == Tag(a, name)[..|sa|];
    assert sb == Tag(b, name)[..|sb|];
    NatToStringInjective(a, b);
  }

  /** Every counter below `n` already gives a name in `l`. */
  predicate Taken(l: seq<string>, name: string, n: nat) {
    forall j :: 0 <= j < n ==> Tag(j, name) in l
  }

  /** `k` is where the `while` search of `create_unique_strings` stops: the
      least counter whose name is not yet in `l`. */
  predicate LeastFree(l: seq<string>, name: string, k: nat) {
    Tag(k, name) !in l && Taken(l, name, k)
  }

  lemma LeastFreeUnique(l: seq<string>, name: string, a: nat, b: nat)
    requires LeastFree(l, name, a) && LeastFree(l, name, b)
    ensures a == b
  {
  }

  function Elems(l: seq<string>): set<string> {
    set x | x in l
  }

  lemma {:induction false} ElemsBound(l: seq<string>)
    ensures |Elems(l)| <= |l|
    decreases |l|
  {
    if |l| > 0 {
      var init := l[..|l| - 1];
      ElemsBound(init);
      assert Elems(l) == Elems(init) + {l[|l| - 1]};
    }
  }

  /** The names of the first `n` counters. */
  function TagSet(n: nat, name: string): set<string>
    decreases n
  {
    if n == 0 then {} else TagSet(n - 1, name) + {Tag(n - 1, name)}
  }

  lemma {:induction false} TagSetSize(n: nat, name: string)
    ensures |TagSet(n, name)| == n
    ensures forall j: nat :: j >= n ==> Tag(j, name) !in TagSet(n, name)
    ensures name !in TagSet(n, name)
    decreases n
  {
    if n > 0 {
      TagSetSize(n - 1, name);
      forall j: nat | j >= n
        ensures Tag(j, name) !in TagSet(n, name)
      {
        if Tag(j, name) == Tag(n - 1, name) {
          TagInjective(j, n - 1, name);
        }
      }
    }
  }

  lemma {:induction false} TagSetWithin(l: seq<string>, name: string, n: nat)
    requires Taken(l, name, n)
    ensures TagSet(n, name) <= Elems(l)
    decreases n
  {
    if n > 0 {
      TagSetWithin(l, name, n - 1);
    }
  }

  lemma SubsetCard(a: set<string>, b: set<string>)
    requires a <= b
    ensures |a| <= |b|
  {
    assert b == a + (b - a);
    assert a * (b - a) == {};
  }

  /** The termination argument of the `while` search: distinct counters give
      distinct names, so at most `|l|` of them can be taken, and one fewer
      when `name` itself occupies a slot of `l`. */
  lemma TagsBound(l: seq<string>, name: string, n: nat)
    requires Taken(l, name, n)
    ensures n <= |l|
    ensures name in l ==> n < |l|
  {
    TagSetSize(n, name);
    TagSetWithin(l, name, n);
    ElemsBound(l);
    if name in l {
      var s := TagSet(n, name) + {name};
      SubsetCard(s, Elems(l));
      assert |s| == n + 1;
    } else {
      SubsetCard(TagSet(n, name), Elems(l));
    }
  }

  /** The `while` loop of `create_unique_strings` as a recursive search
      from counter `k`. */
  function FreeCounter(l: seq<string>, name: string, k: nat): (c: nat)
    requires Taken(l, name, k)
    ensures k <= c && LeastFree(l, name, c)
    ensures name in l ==> c < |l|
    decreases |l| - k
  {
    if Tag(k, name) !in l then
      TagsBound(l, name, k);
      k
    else
      TagsBound(l, name, k + 1);
      FreeCounter(l, name, k + 1)
  }

  /** The name `create_unique_strings` appends for `name` after emitting `l`. */
  function NextName(l: seq<string>, name: string): (r: string)
    ensures r !in l
    ensures name !in l ==> r == name
    ensures name in l ==> exists k: nat :: k < |l| && LeastFree(l, name, k) && r == Tag(k, name)
  {
    if name !in l then name else Tag(FreeCounter(l, name, 0), name)
  }

  /** The list `create_unique_strings(org)` returns, one element per loop
      iteration. */
  function UniqueNames(org: seq<string>): (r: seq<string>)
    ensures |r| == |org|
    decreases |org|
  {
    if |org| == 0 then []
    else
      var prev := UniqueNames(org[..|org| - 1]);
      prev + [NextName(prev, org[|org| - 1])]
  }

  /** No name is emitted twice. */
  lemma {:induction false} UniqueNamesDistinct(org: seq<string>)
    ensures Distinct(UniqueNames(org))
    decreases |org|
  {
    if |org| > 0 {
      var prev := UniqueNames(org[..|org| - 1]);
      UniqueNamesDistinct(org[..|org| - 1]);
      assert NextName(prev, org[|org| - 1]) !in prev;
    }
  }

  /** What element `i` must be, given the names emitted before it: the name
      itself when it is new, otherwise the least free tag. */
  ghost predicate RuleAt(prev: seq<string>, name: string, out: string) {
    if name !in prev then out == name
    else exists k: nat :: LeastFree(prev, name, k) && out == Tag(k, name)
  }

  ghost predicate FollowsRule(org: seq<string>, r: seq<string>) {
    |r| == |org| && forall i :: 0 <= i < |r| ==> RuleAt(r[..i], org[i], r[i])
  }

  lemma {:induction false} UniqueNamesPrefix(org: seq<string>, i: nat)
    requires i <= |org|
    ensures UniqueNames(org)[..i] == UniqueNames(org[..i])
    decreases |org|
  {
    if i < |org| {
      var init := org[..|org| - 1];
      UniqueNamesPrefix(init, i);
      assert init[..i] == org[..i];
    } else {
      assert org[..i] == org;
    }
  }

  /** Element `i` of `create_unique_strings(org)` is `org[i]` when that name
      is not among the first `i` outputs, and otherwise `str(k) + '/' + org[i]`
      for the least free `k`, which is below `i`. */
  lemma UniqueNamesRule(org: seq<string>, i: nat)
    requires i < |org|
    ensures var r := UniqueNames(org); var prev := r[..i];
      && (org[i] !in prev ==> r[i] == org[i])
      && (org[i] in prev ==> exists k: nat :: k < i && LeastFree(prev, org[i], k) && r[i] == Tag(k, org[i]))
  {
    var r := UniqueNames(org);
    UniqueNamesPrefix(org, i + 1);
    UniqueNamesPrefix(org, i);
    assert org[..i + 1][..i] == org[..i];
    assert r[..i + 1] == r[..i] + [r[i]];
  }

  lemma UniqueNamesFollowsRule(org: seq<string>)
    ensures FollowsRule(org, UniqueNames(org))
  {
    var r := UniqueNames(org);
    forall i | 0 <= i < |r|
      ensures RuleAt(r[..i], org[i], r[i])
    {
      UniqueNamesRule(org, i);
    }
  }

  lemma FollowsRulePrefix(org: seq<string>, r: seq<string>, n: nat)
    requires FollowsRule(org, r) && n <= |org|
    ensures FollowsRule(org[..n], r[..n])
  {
    forall i | 0 <= i < n
      ensures RuleAt(r[..n][..i], org[..n][i], r[..n][i])
    {
      assert r[..n][..i] == r[..i];
    }
  }

  /** The rule allows exactly one name at each step: the one `NextName`
      picks. */
  lemma RuleAtNextName(prev: seq<string>, name: string, out: string)
    requires RuleAt(prev, name, out)
    ensures out == NextName(prev, name)
  {
    if name in prev {
      var k :| LeastFree(prev, name, k) && out == Tag(k, name);
      LeastFreeUnique(prev, name, k, FreeCounter(prev, name, 0));
    }
  }

  /** A list agrees with `create_unique_strings` when its front does and its
      last name is the one `NextName` picks. */
  lemma UniqueNamesLast(org: seq<string>, r: seq<string>)
    requires |org| == |r| > 0
    requires r[..|r| - 1] == UniqueNames(org[..|org| - 1])
    requires r[|r| - 1] == NextName(r[..|r| - 1], org[|org| - 1])
    ensures r == UniqueNames(org)
  {
    assert r == r[..|r| - 1] + [r[|r| - 1]];
  }

  /** The inductive step of `RuleDeterminesNames`. */
  lemma RuleStep(org: seq<string>, r: seq<string>)
    requires FollowsRule(org, r) && |org| > 0
    requires r[..|r| - 1] == UniqueNames(org[..|org| - 1])
    ensures r == UniqueNames(org)
  {
    var n := |org| - 1;
    RuleAtNextName(r[..n], org[n], r[n]);
    UniqueNamesLast(org, r);
  }

  /** The rule pins the output down: any list that follows it is the one
      `create_unique_strings` returns. */
  lemma {:induction false} RuleDeterminesNames(org: seq<string>, r: seq<string>)
    requires FollowsRule(org, r)
    ensures r == UniqueNames(org)
    decreases |org|
  {
    if |org| > 0 {
      var n := |org| - 1;
      FollowsRulePrefix(org, r, n);
      RuleDeterminesNames(org[..n], r[..n]);
      RuleStep(org, r);
    }
  }

  /** `create_unique_strings(org_l)`, loop for loop: a first occurrence is
      appended as is, a repeat gets the least counter whose tagged name has
      not been emitted yet. */
  method CreateUniqueStrings(orgL: seq<string>) returns (l: seq<string>)
    ensures |l| == |orgL| && Distinct(l)
    ensures FollowsRule(orgL, l)
    ensures l == UniqueNames(orgL)
  {
    l := [];
    var i := 0;
    while i < |orgL|
      invariant 0 <= i <= |orgL|
      invariant l == UniqueNames(orgL[..i])
    {
      var name := orgL[i];
      if name !in l {
        l := l + [name];
      } else {
        var count := 0;
        while Tag(count, name) in l
          invariant Taken(l, name, count)
          invariant count < |l|
          decreases |l| - count
        {
          count := count + 1;
          TagsBound(l, name, count);
        }
        LeastFreeUnique(l, name, count, FreeCounter(l, name, 0));
        l := l + [Tag(count, name)];
      }
      assert orgL[..i + 1][..i] == orgL[..i];
      i := i + 1;
    }
    assert orgL[..|orgL|] == orgL;
    UniqueNamesFollowsRule(orgL);
    UniqueNamesDistinct(orgL);
  }

  /** One more input name appends exactly one output name. */
  lemma UniqueNamesSnoc(org: seq<string>, x: string)
    ensures UniqueNames(org + [x]) == UniqueNames(org) + [NextName(UniqueNames(org), x)]
  {
    assert (org + [x])[..|org|] == org;
  }

  /** A repeat whose least free counter is known gets that counter's tag. */
  lemma NextNameTag(l: seq<string>, name: string, k: nat)
    requires name in l && LeastFree(l, name, k)
    ensures NextName(l, name) == Tag(k, name)
  {
    LeastFreeUnique(l, name, k, FreeCounter(l, name, 0));
  }

  lemma SmallTags(name: string)
    ensures Tag(0, name) == "0/" + name
    ensures Tag(1, name) == "1/" + name
  {
    assert NatToString(0) == "0";
    assert NatToString(1) == "1";
  }

  lemma SingleName(x: string)
    ensures UniqueNames([x]) == [x]
  {
    UniqueNamesSnoc([], x);
    assert [] + [x] == [x];
  }

  /** A second copy of a name gets counter 0. */
  lemma TwoCopies(x: string)
    ensures UniqueNames([x, x]) == [x, Tag(0, x)]
  {
    assert LeastFree([x], x, 0) by { assert |Tag(0, x)| != |x|; }
    NextNameTag([x], x, 0);
    SingleName(x);
    UniqueNamesSnoc([x], x);
    assert [x] + [x] == [x, x];
  }

  /** A third copy gets counter 1, because counter 0 is taken. */
  lemma ThreeCopies(x: string)
    ensures UniqueNames([x, x, x]) == [x, Tag(0, x), Tag(1, x)]
  {
    var two := [x, Tag(0, x)];
    assert LeastFree(two, x, 1) by {
      assert |Tag(1, x)| != |x|;
      if Tag(1, x) == Tag(0, x) {
        TagInjective(1, 0, x);
      }
      assert Tag(0, x) == two[1];
    }
    NextNameTag(two, x, 1);
    TwoCopies(x);
    UniqueNamesSnoc([x, x], x);
    assert [x, x] + [x] == [x, x, x];
  }

  /** `["Pts", "Pts", "Pts"]` becomes `["Pts", "0/Pts", "1/Pts"]`. */
  lemma ThreeRepeats()
    ensures UniqueNames(["Pts", "Pts", "Pts"]) == ["Pts", "0/Pts", "1/Pts"]
  {
    ThreeCopies("Pts");
    SmallTags("Pts");
    assert "0/" + "Pts" == "0/Pts";
    assert "1/" + "Pts" == "1/Pts";
  }

  /** A first occurrence is not always kept: when an earlier repeat of `x`
      has already produced `0/x`, a later `0/x` in the input is tagged itself
      (`["a", "a", "0/a"]` becomes `["a", "0/a", "0/0/a"]`). */
  lemma FirstOccurrenceCanBeTagged(x: string)
    ensures UniqueNames([x, x, Tag(0, x)]) == [x, Tag(0, x), Tag(0, Tag(0, x))]
  {
    var t := Tag(0, x);
    var two := [x, t];
    assert LeastFree(two, t, 0) by {
      assert |Tag(0, t)| > |t| > |x|;
    }
    NextNameTag(two, t, 0);
    TwoCopies(x);
    UniqueNamesSnoc([x, x], t);
    assert [x, x] + [t] == [x, x, t];
  }

  // ---------------------------------------------------------------------------
  // header pipeline of retrieve_first_table

  /** `[''] * n` */
  function Padding(n: nat): (r: seq<string>)
    ensures |r| == n && forall k :: 0 <= k < n ==> r[k] == ""
  {
    seq(n, k => "")
  }

  /** The names `k` empty strings come out as: `''`, then `'0/'`, `'1/'`, ... */
  ghost predicate PaddingShape(r: seq<string>) {
    |r| > 0 && r[0] == "" && forall k :: 1 <= k < |r| ==> r[k] == Tag(k - 1, "")
  }

  /** After `''`, `'0/'`, ..., `'{m-2}/'` the next empty name gets counter `m - 1`. */
  lemma PaddingStep(prev: seq<string>)
    requires PaddingShape(prev)
    ensures NextName(prev, "") == Tag(|prev| - 1, "")
  {
    var m := |prev|;
    assert prev[0] == "";
    assert Taken(prev, "", m - 1) by {
      forall j | 0 <= j < m - 1
        ensures Tag(j, "") in prev
      {
        assert prev[j + 1] == Tag(j, "");
      }
    }
    assert Tag(m - 1, "") !in prev by {
      forall k | 0 <= k < m
        ensures prev[k] != Tag(m - 1, "")
      {
        if k > 0 && prev[k] == Tag(m - 1, "") {
          TagInjective(k - 1, m - 1, "");
        }
      }
    }
    LeastFreeUnique(prev, "", m - 1, FreeCounter(prev, "", 0));
  }

  /** The names the padding columns end up with: `''`, then `'0/'`, `'1/'`, ... */
  lemma {:induction false} PaddingNames(n: nat)
    requires n > 0
    ensures PaddingShape(UniqueNames(Padding(n)))
    decreases n
  {
    if n == 1 {
      assert Padding(1) == [] + [""];
      UniqueNamesSnoc([], "");
    } else {
      var m := n - 1;
      assert Padding(n) == Padding(m) + [""];
      PaddingNames(m);
      var prev := UniqueNames(Padding(m));
      UniqueNamesSnoc(Padding(m), "");
      PaddingStep(prev);
      PaddingShapeSnoc(prev);
    }
  }

  lemma PaddingShapeSnoc(prev: seq<string>)
    requires PaddingShape(prev)
    ensures PaddingShape(prev + [Tag(|prev| - 1, "")])
  {
    var r := prev + [Tag(|prev| - 1, "")];
    assert forall k :: 0 <= k < |prev| ==> r[k] == prev[k];
  }

  lemma PaddingSurvives(header: seq<string>, prefixCol: nat)
    requires prefixCol > 0
    ensures var r := UniqueNames(SnakeAll(Padding(prefixCol) + header));
      r[0] == "" && forall k :: 1 <= k < prefixCol ==> r[k] == Tag(k - 1, "")
  {
    var org := SnakeAll(Padding(prefixCol) + header);
    assert org[..prefixCol] == Padding(prefixCol);
    UniqueNamesPrefix(org, prefixCol);
    PaddingNames(prefixCol);
  }

  /** The column names `retrieve_first_table` derives from a header row when
      no `override_column` is given: `prefix_col` empty names in front, every
      name snake-cased, then de-duplicated.  There is one name per padded
      header cell, all distinct, and padding comes out as `''`, `'0/'`, ... */
  function HeaderNames(header: seq<string>, prefixCol: nat): (r: seq<string>)
    ensures |r| == prefixCol + |header|
    ensures Distinct(r)
    ensures prefixCol > 0 ==> r[0] == ""
    ensures forall k :: 1 <= k < prefixCol ==> r[k] == Tag(k - 1, "")
  {
    var org := SnakeAll(Padding(prefixCol) + header);
    UniqueNamesDistinct(org);
    if prefixCol > 0 then
      PaddingSurvives(header, prefixCol);
      UniqueNames(org)
    else
      UniqueNames(org)
  }

  /** Every tag holds a `/`, so a header name that comes out without one was
      not tagged: it is the snake-cased header cell itself. */
  lemma UntaggedHeaderName(header: seq<string>, prefixCol: nat, j: nat)
    requires prefixCol <= j < prefixCol + |header|
    requires '/' !in HeaderNames(header, prefixCol)[j]
    ensures HeaderNames(header, prefixCol)[j] == FormatSnake(header[j - prefixCol])
  {
    var padded := Padding(prefixCol) + header;
    var org := SnakeAll(padded);
    var r := UniqueNames(org);
    assert HeaderNames(header, prefixCol) == r;
    UniqueNamesRule(org, j);
    assert padded[j] == header[j - prefixCol];
  }
}
