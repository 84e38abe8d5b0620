/** The literals a pushed filter implies: every row that satisfies the filter contains them, so probing them loses no
    row. */
module LikeNeedles {
  import opened Common
  import opened Needles

  const PERCENT := 37
  const UNDERSCORE := 95

  /** LIKE, by codepoint: percent matches any text, underscore any one codepoint. */
  ghost predicate Like(text: Text, pattern: Text)
    decreases |pattern|
  {
    if pattern == [] then text == []
    else if pattern[0] == PERCENT then exists i :: 0 <= i <= |text| && Like(text[i..], pattern[1..])
    else text != [] && (pattern[0] == UNDERSCORE || text[0] == pattern[0]) && Like(text[1..], pattern[1..])
  }

  /** A literal to probe; `requiresCi` when it must be contained only once case is folded. */
  datatype RewriteNeedle = RewriteNeedle(text: Text, requiresCi: bool)

  /** The pattern cut at its percents, empty parts included. */
  function Parts(pattern: Text): (r: seq<Text>)
    ensures r != []
  {
    if pattern == [] then [[]]
    else
      var rest := Parts(pattern[1..]);
      if pattern[0] == PERCENT then [[]] + rest else [[pattern[0]] + rest[0]] + rest[1..]
  }

  function NonEmpty(parts: seq<Text>): seq<Text> {
    if parts == [] then [] else (if parts[0] == [] then [] else [parts[0]]) + NonEmpty(parts[1..])
  }

  function Marked(parts: seq<Text>, requiresCi: bool): (r: seq<RewriteNeedle>)
    ensures |r| == |parts| && forall i :: 0 <= i < |r| ==> r[i] == RewriteNeedle(parts[i], requiresCi)
  {
    seq(|parts|, i requires 0 <= i < |parts| => RewriteNeedle(parts[i], requiresCi))
  }

  /** Append the pattern's literal segments, or nothing when it holds an underscore. */
  method CollectLikeSegments(pattern: Text, requiresCi: bool, before: seq<RewriteNeedle>)
    returns (ok: bool, needles: seq<RewriteNeedle>)
    ensures ok <==> UNDERSCORE !in pattern
    ensures needles == before + if ok then Marked(NonEmpty(Parts(pattern)), requiresCi) else []
  {
    hide Parts, NonEmpty;
    needles := before;
    assert before + [] == before;
    if UNDERSCORE in pattern {
      return false, needles;
    }
    var found: seq<Text> := [];
    var segment: Text := [];
    StartParts(pattern);
    for i := 0 to |pattern|
      invariant found + NonEmpty([segment + Parts(pattern[i..])[0]] + Parts(pattern[i..])[1..])
                == NonEmpty(Parts(pattern))
    {
      PartsStep(pattern[i..], segment, found);
      assert pattern[i..][1..] == pattern[i + 1..];
      if pattern[i] == PERCENT {
        if segment != [] {
          found := found + [segment];
          segment := [];
        }
      } else {
        segment := segment + [pattern[i]];
      }
    }
    EndParts(segment, found);
    assert pattern[|pattern|..] == [];
    if segment != [] {
      found := found + [segment];
    }
    needles := before + Marked(found, requiresCi);
    ok := true;
  }

  lemma NothingAdded(parts: seq<Text>)
    requires parts != []
    ensures [[] + parts[0]] + parts[1..] == parts
  {
    assert [] + parts[0] == parts[0];
  }

  lemma StartParts(pattern: Text)
    ensures [] + NonEmpty([[] + Parts(pattern[0..])[0]] + Parts(pattern[0..])[1..]) == NonEmpty(Parts(pattern))
  {
    assert pattern[0..] == pattern;
    NothingAdded(Parts(pattern));
  }

  lemma PartsStep(rest: Text, segment: Text, found: seq<Text>)
    requires rest != []
    ensures var after := Parts(rest[1..]);
            var all := found + NonEmpty([segment + Parts(rest)[0]] + Parts(rest)[1..]);
            && (rest[0] == PERCENT ==>
                 all == (if segment != [] then found + [segment] else found) + NonEmpty([[] + after[0]] + after[1..]))
            && (rest[0] == PERCENT && segment == [] ==> [segment + after[0]] == [[] + after[0]])
            && (rest[0] != PERCENT ==> all == found + NonEmpty([(segment + [rest[0]]) + after[0]] + after[1..]))
  {
    var after := Parts(rest[1..]);
    if rest[0] == PERCENT {
      assert segment + [] == segment;
      assert ([segment] + after)[1..] == after;
      NothingAdded(after);
      ConcatAssociates(found, if segment == [] then [] else [segment], NonEmpty(after));
      assert found + [] == found;
    } else {
      ConcatAssociates(segment, [rest[0]], after[0]);
    }
  }

  lemma EndParts(segment: Text, found: seq<Text>)
    ensures found + NonEmpty([segment + Parts([])[0]] + Parts([])[1..]) == if segment != [] then found + [segment]
            else found
  {
    assert segment + [] == segment;
    assert [segment] + Parts([])[1..] == [segment];
    assert NonEmpty([segment][1..]) == [];
    assert found + [] == found;
  }

  // ---------------------------------------------------------------------------------------------------------------
  // A match contains every segment

  lemma OccursLater(needle: Text, text: Text, i: nat)
    requires i <= |text| && Occurs(needle, text[i..])
    ensures Occurs(needle, text)
  {
    var at: nat :| OccursAt(needle, text[i..], at);
    assert text[i..][at..at + |needle|] == text[i + at..i + at + |needle|] by {
      SliceOfSlice(text, i, |text|, at, at + |needle|);
    }
    assert OccursAt(needle, text, i + at);
  }

  lemma PrefixOccurs(needle: Text, text: Text)
    requires needle <= text
    ensures Occurs(needle, text)
  {
    assert OccursAt(needle, text, 0);
  }

  /** A text that matches a pattern without underscores starts with its first part and contains the others. */
  lemma {:induction false} LikeContains(text: Text, pattern: Text)
    requires Like(text, pattern) && UNDERSCORE !in pattern
    ensures Parts(pattern)[0] <= text
    ensures forall p :: p in Parts(pattern)[1..] ==> Occurs(p, text)
    decreases |pattern|
  {
    hide Occurs;
    if pattern != [] {
      var rest := Parts(pattern[1..]);
      if pattern[0] == PERCENT {
        var i :| 0 <= i <= |text| && Like(text[i..], pattern[1..]);
        LikeContains(text[i..], pattern[1..]);
        forall p | p in Parts(pattern)[1..] ensures Occurs(p, text) {
          assert Parts(pattern)[1..] == rest;
          if p == rest[0] {
            PrefixOccurs(p, text[i..]);
          }
          OccursLater(p, text, i);
        }
      } else {
        LikeContains(text[1..], pattern[1..]);
        forall p | p in Parts(pattern)[1..] ensures Occurs(p, text) {
          OccursLater(p, text, 1);
        }
      }
    }
  }

  lemma {:induction false} NonEmptyIn(parts: seq<Text>, p: Text)
    requires p in NonEmpty(parts)
    ensures p in parts && p != []
  {
    if p != parts[0] || parts[0] == [] {
      NonEmptyIn(parts[1..], p);
    }
  }

  lemma SegmentsOccur(text: Text, pattern: Text, p: Text)
    requires Like(text, pattern) && UNDERSCORE !in pattern && p in NonEmpty(Parts(pattern))
    ensures Occurs(p, text)
  {
    hide Occurs, Like;
    NonEmptyIn(Parts(pattern), p);
    LikeContains(text, pattern);
    var parts := Parts(pattern);
    if p == parts[0] {
      PrefixOccurs(p, text);
    } else {
      assert p in parts[1..];
    }
  }

  /** A text spells the parts when it starts with the first, ends with the last, and holds the others in order
      between. */
  ghost predicate Spells(text: Text, parts: seq<Text>)
    requires parts != []
    decreases |parts|
  {
    if |parts| == 1 then text == parts[0]
    else exists i :: |parts[0]| <= i <= |text| && parts[0] <= text && Spells(text[i..], parts[1..])
  }

  lemma SpellsStep(text: Text, c: nat, parts: seq<Text>)
    requires parts != []
    ensures Spells(text, [[c] + parts[0]] + parts[1..]) <==> text != [] && text[0] == c && Spells(text[1..], parts)
  {
    if Spells(text, [[c] + parts[0]] + parts[1..]) {
      SpellsLess(text, c, parts);
    }
    if text != [] && text[0] == c && Spells(text[1..], parts) {
      SpellsMore(text, c, parts);
    }
  }

  lemma SpellsLess(text: Text, c: nat, parts: seq<Text>)
    requires parts != [] && Spells(text, [[c] + parts[0]] + parts[1..])
    ensures text != [] && text[0] == c && Spells(text[1..], parts)
  {
    var first := [c] + parts[0];
    var longer := [first] + parts[1..];
    assert longer[1..] == parts[1..];
    if |parts| > 1 {
      var i :| |first| <= i <= |text| && first <= text && Spells(text[i..], longer[1..]);
      assert text[1..][i - 1..] == text[i..] && parts[0] <= text[1..] && text[0] == first[0];
    }
  }

  lemma SpellsMore(text: Text, c: nat, parts: seq<Text>)
    requires parts != [] && text != [] && text[0] == c && Spells(text[1..], parts)
    ensures Spells(text, [[c] + parts[0]] + parts[1..])
  {
    var longer := [[c] + parts[0]] + parts[1..];
    assert longer[1..] == parts[1..];
    assert text == [c] + text[1..];
    if |parts| > 1 {
      var i :| |parts[0]| <= i <= |text| - 1 && parts[0] <= text[1..] && Spells(text[1..][i..], parts[1..]);
      assert text[1..][i..] == text[i + 1..];
    }
  }

  /** For a pattern without underscores, LIKE is spelling its parts: cutting at the percents loses nothing. */
  lemma {:induction false} LikeIsParts(text: Text, pattern: Text)
    requires UNDERSCORE !in pattern
    ensures Like(text, pattern) <==> Spells(text, Parts(pattern))
    decreases |pattern|
  {
    if pattern != [] {
      var rest := Parts(pattern[1..]);
      if pattern[0] == PERCENT {
        assert ([[]] + rest)[1..] == rest;
        forall i | 0 <= i <= |text| ensures Like(text[i..], pattern[1..]) <==> Spells(text[i..], rest) {
          LikeIsParts(text[i..], pattern[1..]);
        }
      } else {
        SpellsStep(text, pattern[0], rest);
        if text != [] {
          LikeIsParts(text[1..], pattern[1..]);
        }
      }
    }
  }

  // ---------------------------------------------------------------------------------------------------------------
  // ILIKE

  /** Folding touches no wildcard and yields none. */
  predicate KeepsWildcards(fold: nat -> nat) {
    && fold(PERCENT) == PERCENT && fold(UNDERSCORE) == UNDERSCORE
  }

  ghost predicate YieldsNoWildcard(fold: nat -> nat) {
    forall c :: fold(c) == PERCENT || fold(c) == UNDERSCORE ==> fold(c) == c
  }

  function FoldAll(fold: nat -> nat, parts: seq<Text>): (r: seq<Text>)
    ensures |r| == |parts| && forall i :: 0 <= i < |r| ==> r[i] == Fold(fold, parts[i])
  {
    seq(|parts|, i requires 0 <= i < |parts| => Fold(fold, parts[i]))
  }

  lemma FoldNothing(fold: nat -> nat)
    ensures Parts(Fold(fold, [])) == FoldAll(fold, Parts([]))
  {
    assert Fold(fold, []) == [];
    assert FoldAll(fold, [[]]) == [[]];
  }

  lemma FoldParts(fold: nat -> nat, c: nat, rest: seq<Text>)
    requires rest != []
    ensures FoldAll(fold, [[]] + rest) == [[]] + FoldAll(fold, rest)
    ensures FoldAll(fold, [[c] + rest[0]] + rest[1..])
            == [[fold(c)] + FoldAll(fold, rest)[0]] + FoldAll(fold, rest)[1..]
  {
    assert Fold(fold, [c] + rest[0]) == [fold(c)] + Fold(fold, rest[0]);
  }

  /** Cutting at percents commutes with folding. */
  lemma {:induction false} PartsFold(fold: nat -> nat, pattern: Text)
    requires KeepsWildcards(fold) && YieldsNoWildcard(fold)
    ensures Parts(Fold(fold, pattern)) == FoldAll(fold, Parts(pattern))
  {
    hide FoldAll, Fold;
    if pattern == [] {
      FoldNothing(fold);
    } else {
      PartsFold(fold, pattern[1..]);
      FoldTail(fold, pattern);
      FoldParts(fold, pattern[0], Parts(pattern[1..]));
    }
  }

  lemma FoldTail(fold: nat -> nat, pattern: Text)
    requires pattern != []
    ensures Fold(fold, pattern)[0] == fold(pattern[0]) && Fold(fold, pattern)[1..] == Fold(fold, pattern[1..])
  {
  }

  /** An ILIKE match contains every segment once both are folded. */
  lemma FoldedSegmentsOccur(fold: nat -> nat, text: Text, pattern: Text, p: Text)
    requires KeepsWildcards(fold) && YieldsNoWildcard(fold)
    requires Like(Fold(fold, text), Fold(fold, pattern)) && UNDERSCORE !in pattern && p in NonEmpty(Parts(pattern))
    ensures Occurs(Fold(fold, p), Fold(fold, text))
  {
    hide Occurs, Like;
    NonEmptyIn(Parts(pattern), p);
    PartsFold(fold, pattern);
    var parts, folded := Parts(pattern), Fold(fold, pattern);
    assert UNDERSCORE !in folded by { NoUnderscore(fold, pattern); }
    LikeContains(Fold(fold, text), folded);
    var i :| 0 <= i < |parts| && parts[i] == p;
    assert Parts(folded)[i] == Fold(fold, p);
    if i == 0 {
      PrefixOccurs(Fold(fold, p), Fold(fold, text));
    } else {
      assert Parts(folded)[1..][i - 1] == Fold(fold, p);
    }
  }

  lemma NoUnderscore(fold: nat -> nat, pattern: Text)
    requires YieldsNoWildcard(fold) && UNDERSCORE !in pattern
    ensures UNDERSCORE !in Fold(fold, pattern)
  {
    var folded := Fold(fold, pattern);
    forall i | 0 <= i < |folded| ensures folded[i] != UNDERSCORE {
      assert pattern[i] in pattern;
      assert folded[i] == fold(pattern[i]);
    }
  }

  // ---------------------------------------------------------------------------------------------------------------
  // Filter expressions

  /** A pushed filter over one text column; `Other` is any expression the harvest ignores. */
  datatype Filter =
    | Contains(needle: Text)
    | LikeFilter(pattern: Text)
    | ILikeFilter(pattern: Text)
    | And(children: seq<Filter>)
    | Or(children: seq<Filter>)
    | Other(id: int)

  /** Whether a row's text satisfies the filter. */
  ghost predicate Holds(f: Filter, text: Text, fold: nat -> nat, other: int -> bool) {
    match f
    case Contains(needle) => Occurs(needle, text)
    case LikeFilter(pattern) => Like(text, pattern)
    case ILikeFilter(pattern) => Like(Fold(fold, text), Fold(fold, pattern))
    case And(children) => forall i :: 0 <= i < |children| ==> Holds(children[i], text, fold, other)
    case Or(children) => exists i :: 0 <= i < |children| && Holds(children[i], text, fold, other)
    case Other(id) => other(id)
  }

  /** A needle's promise about a text. */
  ghost predicate Contained(n: RewriteNeedle, text: Text, fold: nat -> nat) {
    if n.requiresCi then Occurs(Fold(fold, n.text), Fold(fold, text)) else Occurs(n.text, text)
  }

  /** The needles harvested from a filter: every conjunct contributes, nothing under an OR does. */
  function Harvest(f: Filter): seq<RewriteNeedle> {
    match f
    case Contains(needle) => [RewriteNeedle(needle, false)]
    case LikeFilter(pattern) => if UNDERSCORE in pattern then [] else Marked(NonEmpty(Parts(pattern)), false)
    case ILikeFilter(pattern) => if UNDERSCORE in pattern then [] else Marked(NonEmpty(Parts(pattern)), true)
    case And(children) => HarvestAll(children)
    case Or(_) => []
    case Other(_) => []
  }

  function HarvestAll(children: seq<Filter>): seq<RewriteNeedle> {
    if children == [] then [] else Harvest(children[0]) + HarvestAll(children[1..])
  }

  method CollectExprNeedles(f: Filter, before: seq<RewriteNeedle>) returns (needles: seq<RewriteNeedle>)
    ensures needles == before + Harvest(f)
    decreases f
  {
    hide NonEmpty, Parts;
    match f {
      case Contains(needle) =>
        needles := before + [RewriteNeedle(needle, false)];
      case LikeFilter(pattern) =>
        var ok;
        ok, needles := CollectLikeSegments(pattern, false, before);
      case ILikeFilter(pattern) =>
        var ok;
        ok, needles := CollectLikeSegments(pattern, true, before);
      case And(children) =>
        needles := before;
        assert children[0..] == children;
        for i := 0 to |children|
          invariant needles + HarvestAll(children[i..]) == before + HarvestAll(children)
        {
          assert children[i..][0] == children[i] && children[i..][1..] == children[i + 1..];
          ConcatAssociates(needles, Harvest(children[i]), HarvestAll(children[i + 1..]));
          needles := CollectExprNeedles(children[i], needles);
        }
        assert children[|children|..] == [];
      case Or(_) =>
        needles := before;
      case Other(_) =>
        needles := before;
    }
  }

  /** Every needle harvested from a filter is contained in every row that satisfies it. */
  lemma {:induction false} NeedlesImplied(f: Filter, text: Text, fold: nat -> nat, other: int -> bool, n: RewriteNeedle)
    requires KeepsWildcards(fold) && YieldsNoWildcard(fold)
    requires Holds(f, text, fold, other) && n in Harvest(f)
    ensures Contained(n, text, fold)
    decreases f, 0
  {
    hide Occurs, Like, NonEmpty, Parts;
    match f {
      case Contains(_) =>
      case LikeFilter(pattern) =>
        var i :| 0 <= i < |Harvest(f)| && Harvest(f)[i] == n;
        SegmentsOccur(text, pattern, NonEmpty(Parts(pattern))[i]);
      case ILikeFilter(pattern) =>
        var i :| 0 <= i < |Harvest(f)| && Harvest(f)[i] == n;
        FoldedSegmentsOccur(fold, text, pattern, NonEmpty(Parts(pattern))[i]);
      case And(children) =>
        var child := HarvestFrom(children, n);
        assert Holds(children[child], text, fold, other);
        NeedlesImplied(children[child], text, fold, other, n);
      case _ =>
    }
  }

  lemma {:induction false} HarvestFrom(children: seq<Filter>, n: RewriteNeedle) returns (i: nat)
    requires n in HarvestAll(children)
    ensures i < |children| && n in Harvest(children[i])
  {
    hide Harvest;
    if n in Harvest(children[0]) {
      i := 0;
    } else {
      var j := HarvestFrom(children[1..], n);
      i := j + 1;
    }
  }

  // ---------------------------------------------------------------------------------------------------------------
  // Harvesting loses nothing

  /** `part` is one of several literals a pattern names: a non-empty stretch between percents. */
  lemma {:induction false} NonEmptyIff(parts: seq<Text>, part: Text)
    ensures part in NonEmpty(parts) <==> part in parts && part != []
  {
    if parts != [] {
      NonEmptyIff(parts[1..], part);
      assert parts == [parts[0]] + parts[1..];
    }
  }

  /** `g` is a conjunct of f: f itself, or one of a child's when f is an AND. */
  ghost predicate Conjunct(f: Filter, g: Filter) {
    g == f || (f.And? && exists i :: 0 <= i < |f.children| && Conjunct(f.children[i], g))
  }

  /** What one conjunct contributes: a contains literal as it is; of a pattern without underscores every non-empty part,
      to be probed in a case-insensitive index alone when the pattern is ILIKE's. */
  predicate Contributes(g: Filter, n: RewriteNeedle) {
    match g
    case Contains(needle) => n == RewriteNeedle(needle, false)
    case LikeFilter(pattern) => UNDERSCORE !in pattern && n.text in Parts(pattern) && n.text != [] && !n.requiresCi
    case ILikeFilter(pattern) => UNDERSCORE !in pattern && n.text in Parts(pattern) && n.text != [] && n.requiresCi
    case _ => false
  }

  lemma MarkedIff(texts: seq<Text>, ci: bool, n: RewriteNeedle)
    ensures n in Marked(texts, ci) <==> n.text in texts && n.requiresCi == ci
  {
    var marked := Marked(texts, ci);
    if n.text in texts && n.requiresCi == ci {
      var i :| 0 <= i < |texts| && texts[i] == n.text;
      assert marked[i] == n;
    }
    if n in marked {
      var i :| 0 <= i < |marked| && marked[i] == n;
    }
  }

  /** The needles harvested are exactly what the conjuncts contribute. */
  lemma {:induction false} HarvestIff(f: Filter, n: RewriteNeedle)
    ensures n in Harvest(f) <==> exists g :: Conjunct(f, g) && Contributes(g, n)
    decreases f
  {
    hide NonEmpty, Parts, Marked;
    match f {
      case LikeFilter(pattern) =>
        MarkedIff(NonEmpty(Parts(pattern)), false, n);
        NonEmptyIff(Parts(pattern), n.text);
        assert Conjunct(f, f);
      case ILikeFilter(pattern) =>
        MarkedIff(NonEmpty(Parts(pattern)), true, n);
        NonEmptyIff(Parts(pattern), n.text);
        assert Conjunct(f, f);
      case And(children) =>
        forall i | 0 <= i < |children|
          ensures n in Harvest(children[i]) <==> exists g :: Conjunct(children[i], g) && Contributes(g, n)
        {
          HarvestIff(children[i], n);
        }
        HarvestAllIff(children, n);
        if i :| 0 <= i < |children| && n in Harvest(children[i]) {
          var g :| Conjunct(children[i], g) && Contributes(g, n);
          assert Conjunct(f, g);
        }
        if g :| Conjunct(f, g) && Contributes(g, n) {
          var i :| 0 <= i < |children| && Conjunct(children[i], g);
        }
      case _ =>
        assert Conjunct(f, f);
    }
  }

  lemma {:induction false} HarvestAllIff(children: seq<Filter>, n: RewriteNeedle)
    ensures n in HarvestAll(children) <==> exists i :: 0 <= i < |children| && n in Harvest(children[i])
  {
    hide Harvest;
    if children != [] {
      HarvestAllIff(children[1..], n);
      if i :| 0 <= i < |children[1..]| && n in Harvest(children[1..][i]) {
        assert n in Harvest(children[i + 1]);
      }
      if i :| 0 <= i < |children| && n in Harvest(children[i]) {
        assert i > 0 ==> children[1..][i - 1] == children[i];
      }
    }
  }

  /** Conjunctions of contains filters, and nothing else. */
  predicate OnlyContains(f: Filter) {
    match f
    case Contains(_) => true
    case And(children) => forall i :: 0 <= i < |children| ==> OnlyContains(children[i])
    case _ => false
  }

  /** For those the needles are the whole filter: a text satisfies it exactly when it contains every one. */
  lemma {:induction false} NeedlesAreTheFilter(f: Filter, text: Text, fold: nat -> nat, other: int -> bool)
    requires OnlyContains(f)
    ensures Holds(f, text, fold, other) <==> forall n :: n in Harvest(f) ==> Contained(n, text, fold)
    decreases f
  {
    hide Occurs;
    match f {
      case Contains(needle) =>
        assert RewriteNeedle(needle, false) in Harvest(f);
      case And(children) =>
        forall i | 0 <= i < |children|
          ensures Holds(children[i], text, fold, other)
                  <==> forall n :: n in Harvest(children[i]) ==> Contained(n, text, fold)
        {
          NeedlesAreTheFilter(children[i], text, fold, other);
        }
        forall n ensures n in Harvest(f) <==> exists i :: 0 <= i < |children| && n in Harvest(children[i]) {
          HarvestAllIff(children, n);
        }
    }
  }

  /** A text as an index of this case sensitivity folds it. */
  function Indexed(ci: bool, fold: nat -> nat, text: Text): Text {
    if ci then Fold(fold, text) else text
  }

  /** Probing any harvested needle the index can serve loses no row: a row that satisfies the filter is posted under
      every key of the needle. */
  lemma HarvestedKeysArePosted(f: Filter, text: Text, fold: nat -> nat, other: int -> bool, n: RewriteNeedle,
                               o: Options, h: Hashing, ci: bool, key: int)
    requires KeepsWildcards(fold) && YieldsNoWildcard(fold) && ValidOptions(o)
    requires Holds(f, text, fold, other) && n in Harvest(f) && (n.requiresCi ==> ci)
    requires HasKey(o, h, Indexed(ci, fold, n.text), key)
    ensures HasKey(o, h, Indexed(ci, fold, text), key)
  {
    hide Holds, Harvest, Occurs, HasKey, ValidOptions;
    NeedlesImplied(f, text, fold, other, n);
    if ci && !n.requiresCi {
      FoldOccurs(fold, n.text, text);
    }
    NeedleKeyOccurs(o, h, Indexed(ci, fold, n.text), Indexed(ci, fold, text), key);
  }
}
