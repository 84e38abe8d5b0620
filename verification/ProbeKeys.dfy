/** The keys one probe asks for: those of every needle the index can serve, as many as the budget admits. */
module ProbeKeys {
  import opened Common
  import opened Needles
  import opened LikeNeedles
  import opened GuardedSearch
  import SG = SparseGrams

  /** As many keys as the budget admits. */
  function Limit(keys: seq<int>, maxKeys: nat): seq<int> {
    if |keys| <= maxKeys then keys else keys[..maxKeys]
  }

  /** The grams decomposing a needle probes. */
  ghost predicate ProbesOf(x: Indexing, n: RewriteNeedle, probed: seq<SG.Range>)
    requires ValidOptions(x.options)
  {
    var needle := Indexed(x.ci, x.fold, n.text);
    Probes(x.options, x.hashing, needle, probed) && AllGrams(x.options, x.hashing, needle, probed)
  }

  /** The distinct keys of a needle's probed grams. */
  ghost function KeysOf(x: Indexing, n: RewriteNeedle, probed: seq<SG.Range>): seq<int>
    requires ValidOptions(x.options) && ProbesOf(x, n, probed)
  {
    WithKeys([], KeysAt(x.options, x.hashing, Indexed(x.ci, x.fold, n.text), probed))
  }

  /** What a needle contributes: the keys of its probed grams, or nothing when it asks for an index that folds case, has
      too many bytes, is too short for a gram, or has more keys than the budget. */
  ghost predicate Contributes(x: Indexing, n: RewriteNeedle, bytes: nat, maxKeys: nat, own: seq<int>)
    requires ValidOptions(x.options)
  {
    if (n.requiresCi && !x.ci) || bytes > BytesPerKey(x.options) * maxKeys then own == []
    else exists probed :: ProbesOf(x, n, probed)
                          && own == if |KeysOf(x, n, probed)| <= maxKeys then KeysOf(x, n, probed) else []
  }

  /** Decompose one needle on its own. */
  method OwnKeys(x: Indexing, n: RewriteNeedle, bytes: nat, maxKeys: nat) returns (own: seq<int>)
    requires ValidOptions(x.options)
    ensures Contributes(x, n, bytes, maxKeys, own)
  {
    hide Probes, KeysAt, AllGrams, ValidOptions, WithKeys, Indexed;
    if n.requiresCi && !x.ci {
      return [];
    }
    var keys := new NeedleKeys();
    var needle := Indexed(x.ci, x.fold, n.text);
    var shape, probed := DecomposeNeedle(x.options, x.hashing, needle, bytes, maxKeys, keys);
    if shape.TooShort? {
      NoGramsProbed(x, n);
      return [];
    }
    if shape.OverBudget? {
      assert bytes <= BytesPerKey(x.options) * maxKeys ==> ProbesOf(x, n, probed);
      return [];
    }
    assert ProbesOf(x, n, probed);
    own := keys.keys;
  }

  /** A needle without grams has no keys. */
  lemma NoGramsProbed(x: Indexing, n: RewriteNeedle)
    requires ValidOptions(x.options) && |Indexed(x.ci, x.fold, n.text)| < x.options.minGram
    ensures ProbesOf(x, n, []) && KeysOf(x, n, []) == []
  {
    hide GramsOf;
    var needle := Indexed(x.ci, x.fold, n.text);
    HasGrams(x.options, x.hashing, needle);
    var keys := KeysAt(x.options, x.hashing, needle, []);
    assert keys == [];
  }

  /** Add a needle's keys until one exceeds the budget. */
  method AddWhileRoom(keys: NeedleKeys, own: seq<int>, maxKeys: nat, ghost before: seq<int>)
    requires keys.Valid() && keys.keys == Limit(before, maxKeys)
    modifies keys
    ensures keys.Valid() && keys.keys == Limit(WithKeys(before, own), maxKeys)
  {
    hide WithKeys, Limit;
    NoKeys(before);
    assert own[..0] == [];
    for i := 0 to |own|
      invariant keys.Valid() && keys.keys == Limit(WithKeys(before, own[..i]), maxKeys)
    {
      var ok := keys.Add(own[i], maxKeys);
      WithKeysStep(before, own, i);
      LimitStep(WithKeys(before, own[..i]), own[i], maxKeys);
      if !ok {
        FullStays(before, own, i, maxKeys);
        assert own[..|own|] == own;
        return;
      }
    }
    assert own[..|own|] == own;
  }

  lemma LimitStep(keys: seq<int>, key: int, maxKeys: nat)
    ensures var now, next := Limit(keys, maxKeys), Limit(WithKey(keys, key), maxKeys);
            if key in now || |now| < maxKeys then next == WithKey(now, key)
            else next == now && |WithKey(keys, key)| >= maxKeys && |keys| >= maxKeys
  {
  }

  /** A full list stays as it is, whatever else is offered. */
  lemma {:induction false} FullStays(before: seq<int>, own: seq<int>, i: nat, maxKeys: nat)
    requires i <= |own| && |WithKeys(before, own[..i])| >= maxKeys
    ensures Limit(WithKeys(before, own[..i]), maxKeys) == Limit(WithKeys(before, own), maxKeys)
    decreases |own| - i
  {
    if i == |own| {
      assert own[..i] == own;
    } else {
      WithKeysStep(before, own, i);
      FullStays(before, own, i + 1, maxKeys);
    }
  }

  function CountNonEmpty(owns: seq<seq<int>>): nat {
    if owns == [] then 0
    else CountNonEmpty(owns[..|owns| - 1]) + if owns[|owns| - 1] != [] then 1 else 0
  }

  lemma {:induction false} WithKeysConcat(keys: seq<int>, a: seq<int>, b: seq<int>)
    ensures WithKeys(keys, a + b) == WithKeys(WithKeys(keys, a), b)
  {
    if b == [] {
      assert a + b == a;
    } else {
      WithKeysConcat(keys, a, b[..|b| - 1]);
      assert (a + b)[..|a + b| - 1] == a + b[..|b| - 1];
    }
  }

  /** All usable needles' keys, each once and in the order they occur, cut at the budget: what is past it is dropped,
      and the probe goes on without. */
  method CollectProbeKeys(x: Indexing, needles: seq<RewriteNeedle>, bytesOf: Text -> nat, maxKeys: nat)
    returns (keys: seq<int>, usable: nat, ghost owns: seq<seq<int>>)
    requires ValidOptions(x.options)
    ensures |owns| == |needles|
    ensures forall i :: 0 <= i < |needles| ==>
              Contributes(x, needles[i], bytesOf(Indexed(x.ci, x.fold, needles[i].text)), maxKeys, owns[i])
    ensures usable == CountNonEmpty(owns) && keys == Limit(WithKeys([], Flatten(owns)), maxKeys)
  {
    hide Contributes, WithKeys, Limit, Flatten, ValidOptions, Indexed;
    usable, owns := 0, [];
    var all := new NeedleKeys();
    NothingYet(maxKeys);
    for i := 0 to |needles|
      invariant fresh(all) && all.Valid() && |owns| == i && usable == CountNonEmpty(owns)
      invariant all.keys == Limit(WithKeys([], Flatten(owns)), maxKeys)
      invariant forall j :: 0 <= j < i ==>
                  Contributes(x, needles[j], bytesOf(Indexed(x.ci, x.fold, needles[j].text)), maxKeys, owns[j])
    {
      var own := OwnKeys(x, needles[i], bytesOf(Indexed(x.ci, x.fold, needles[i].text)), maxKeys);
      AddWhileRoom(all, own, maxKeys, WithKeys([], Flatten(owns)));
      WithKeysConcat([], Flatten(owns), own);
      FlattenSnoc(owns, own);
      assert (owns + [own])[..i] == owns;
      owns := owns + [own];
      if own != [] {
        usable := usable + 1;
      }
    }
    keys := all.keys;
  }

  lemma NothingYet(maxKeys: nat)
    ensures Limit(WithKeys([], Flatten([])), maxKeys) == [] && CountNonEmpty([]) == 0
  {
  }

  // ---------------------------------------------------------------------------------------------------------------
  // What the keys promise

  lemma {:induction false} InFlattened(owns: seq<seq<int>>, key: int) returns (i: nat)
    requires key in Flatten(owns)
    ensures i < |owns| && key in owns[i]
  {
    if key in owns[0] {
      i := 0;
    } else {
      var j := InFlattened(owns[1..], key);
      i := j + 1;
    }
  }

  /** What one needle contributes are its keys, and only a needle the index can serve contributes. */
  lemma ContributedIsFromNeedle(x: Indexing, f: Filter, n: RewriteNeedle, bytes: nat, maxKeys: nat, own: seq<int>,
                                key: int)
    requires ValidIndexing(x) && n in Harvest(f) && Contributes(x, n, bytes, maxKeys, own) && key in own
    ensures FromNeedle(x, f, key)
  {
    hide Harvest, Indexed, Probes, WithKeys, KeysAt, FromNeedle, AllGrams;
    var probed :| ProbesOf(x, n, probed) && own == if |KeysOf(x, n, probed)| <= maxKeys then KeysOf(x, n, probed)
        else [];
    assert key in KeysAt(x.options, x.hashing, Indexed(x.ci, x.fold, n.text), probed);
    ProbedKeysAreFromNeedles(x, f, n, probed, key);
  }

  /** A needle that can be served, has a gram and keeps within the budget contributes all its probed grams' keys. */
  lemma UsableContributes(x: Indexing, n: RewriteNeedle, bytes: nat, maxKeys: nat, own: seq<int>)
    requires ValidOptions(x.options) && Contributes(x, n, bytes, maxKeys, own)
    requires (n.requiresCi ==> x.ci) && bytes <= BytesPerKey(x.options) * maxKeys
    requires |Indexed(x.ci, x.fold, n.text)| >= x.options.minGram
    requires forall probed :: ProbesOf(x, n, probed) ==> |KeysOf(x, n, probed)| <= maxKeys
    ensures own != [] && exists probed :: ProbesOf(x, n, probed) && own == KeysOf(x, n, probed)
  {
    hide Indexed, Probes, WithKeys, KeysAt, AllGrams, ValidOptions;
    var probed :| ProbesOf(x, n, probed) && own == if |KeysOf(x, n, probed)| <= maxKeys then KeysOf(x, n, probed)
        else [];
    assert own == KeysOf(x, n, probed);
    ProbesAreGrams(x.options, x.hashing, Indexed(x.ci, x.fold, n.text), probed);
    KeysIffMore(KeysAt(x.options, x.hashing, Indexed(x.ci, x.fold, n.text), probed));
  }

  /** The keys collected from a filter's needles are keys every satisfying row has, as the end-to-end statement asks;
      there are some exactly when some needle is usable and the budget admits a key. */
  lemma CollectedKeysServe(x: Indexing, f: Filter, bytesOf: Text -> nat, maxKeys: nat, owns: seq<seq<int>>,
                           keys: seq<int>)
    requires ValidIndexing(x) && |owns| == |Harvest(f)|
    requires forall i :: 0 <= i < |owns| ==>
               Contributes(x, Harvest(f)[i], bytesOf(Indexed(x.ci, x.fold, Harvest(f)[i].text)), maxKeys, owns[i])
    requires keys == Limit(WithKeys([], Flatten(owns)), maxKeys)
    ensures forall g :: 0 <= g < |keys| ==> FromNeedle(x, f, keys[g])
    ensures keys != [] <==> CountNonEmpty(owns) > 0 && maxKeys > 0
  {
    hide Harvest, Contributes, FromNeedle, WithKeys, ValidOptions, Flatten, CountNonEmpty, Indexed;
    var all := WithKeys([], Flatten(owns));
    forall g | 0 <= g < |keys| ensures FromNeedle(x, f, keys[g]) {
      assert all[g] == keys[g] && all[g] in all;
      var i := InFlattened(owns, keys[g]);
      assert Harvest(f)[i] in Harvest(f);
      ContributedIsFromNeedle(x, f, Harvest(f)[i], bytesOf(Indexed(x.ci, x.fold, Harvest(f)[i].text)), maxKeys, owns[i],
                              keys[g]);
    }
    SomeKeys(owns);
    assert all != [] <==> Flatten(owns) != [] by { KeysIffMore(Flatten(owns)); }
  }

  lemma {:induction false} SomeKeys(owns: seq<seq<int>>)
    ensures Flatten(owns) != [] <==> CountNonEmpty(owns) > 0
  {
    if owns != [] {
      var front, last := owns[..|owns| - 1], owns[|owns| - 1];
      SomeKeys(front);
      FlattenSnoc(front, last);
      assert owns == front + [last];
    }
  }

  lemma KeysIffMore(more: seq<int>)
    ensures WithKeys([], more) != [] <==> more != []
  {
    var r := WithKeys([], more);
    if more != [] {
      assert more[0] in r;
    }
  }
}
