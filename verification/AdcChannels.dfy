/** The ADC channel generator of firmware-old/open-servo-macros/src/adc_channels.rs: one
index constant per channel and per combination of earlier features, of which the
enabled feature set activates exactly one. */
module AdcChannels {
  import opened Basics
  import opened Bits

  type Feature = string

  /** A channel is always present, or gated by a feature. */
  datatype Channel = Channel(feature: Option<Feature>)

  // ---------------------------------------------------------------------
  // The simple reading: a channel's index is its rank among the enabled ones
  // ---------------------------------------------------------------------

  predicate Enabled(ch: Channel, on: set<Feature>) {
    ch.feature.None? || ch.feature.value in on
  }

  function Rank(channels: seq<Channel>, on: set<Feature>): nat {
    if channels == [] then 0
    else Rank(channels[..|channels| - 1], on) + (if Enabled(channels[|channels| - 1], on) then 1 else 0)
  }

  // ---------------------------------------------------------------------
  // The generator
  // ---------------------------------------------------------------------

  /** Features in order of first use. */
  function UniqueFeatures(channels: seq<Channel>): seq<Feature> {
    if channels == [] then []
    else
      var seen := UniqueFeatures(channels[..|channels| - 1]);
      var f := channels[|channels| - 1].feature;
      if f.Some? && f.value !in seen then seen + [f.value] else seen
  }

  /** One member of the powerset: the features whose bit is set in the mask. */
  function Combo(features: seq<Feature>, mask: nat): seq<Feature> {
    if features == [] then []
    else
      var n := |features| - 1;
      Combo(features[..n], mask) + (if Bit(mask, n) then [features[n]] else [])
  }

  /** `feature = "f"` or `not(feature = "f")`; a cfg is a conjunction of these. */
  datatype Literal = Literal(feature: Feature, positive: bool)

  function BuildCfg(own: Option<Feature>, prior: seq<Feature>, enabled: seq<Feature>): seq<Literal> {
    (if own.Some? then [Literal(own.value, true)] else [])
    + seq(|prior|, i requires 0 <= i < |prior| => Literal(prior[i], prior[i] in enabled))
  }

  predicate Active(cfg: seq<Literal>, on: set<Feature>) {
    forall i :: 0 <= i < |cfg| ==> (cfg[i].feature in on) == cfg[i].positive
  }

  /** Gated channels whose feature is in the combination. */
  function Offset(channels: seq<Channel>, enabled: seq<Feature>): nat {
    if channels == [] then 0
    else
      var f := channels[|channels| - 1].feature;
      Offset(channels[..|channels| - 1], enabled) + (if f.Some? && f.value in enabled then 1 else 0)
  }

  function AlwaysPresent(channels: seq<Channel>): nat {
    if channels == [] then 0
    else AlwaysPresent(channels[..|channels| - 1]) + (if channels[|channels| - 1].feature.None? then 1 else 0)
  }

  /** One generated `pub const` of the index module. */
  datatype Constant = Constant(channel: nat, cfg: seq<Literal>, value: nat)

  function ConstantFor(channels: seq<Channel>, i: nat, mask: nat): Constant
    requires i < |channels|
  {
    var prior := channels[..i];
    var features := UniqueFeatures(prior);
    var combo := Combo(features, mask);
    Constant(i, BuildCfg(channels[i].feature, features, combo), AlwaysPresent(prior) + Offset(prior, combo))
  }

  /** All constants of channel i, one per mask. */
  function ConstantsOf(channels: seq<Channel>, i: nat): seq<Constant>
    requires i < |channels|
  {
    seq(Pow2(|UniqueFeatures(channels[..i])|), m requires 0 <= m => ConstantFor(channels, i, m))
  }

  function Constants(channels: seq<Channel>, n: nat): seq<Constant>
    requires n <= |channels|
  {
    if n == 0 then [] else Constants(channels, n - 1) + ConstantsOf(channels, n - 1)
  }

  method CollectFeatures(channels: seq<Channel>) returns (seen: seq<Feature>)
    ensures seen == UniqueFeatures(channels)
  {
    seen := [];
    for i := 0 to |channels|
      invariant seen == UniqueFeatures(channels[..i])
    {
      assert channels[..i + 1][..i] == channels[..i];
      var f := channels[i].feature;
      if f.Some? && f.value !in seen {
        seen := seen + [f.value];
      }
    }
    assert channels[..|channels|] == channels;
  }

  /** The index module: for each channel, a constant per combination. */
  method GenerateIndex(channels: seq<Channel>) returns (consts: seq<Constant>)
    ensures consts == Constants(channels, |channels|)
  {
    consts := [];
    for i := 0 to |channels|
      invariant consts == Constants(channels, i)
    {
      var prior := CollectFeatures(channels[..i]);
      if prior == [] {
        consts := consts + [Constant(i, BuildCfg(channels[i].feature, [], []), AlwaysPresent(channels[..i]))];
        NoFeatures(channels, i);
      } else {
        ghost var before := consts;
        for mask := 0 to Pow2(|prior|)
          invariant consts == before + ConstantsOf(channels, i)[..mask]
        {
          var combo := Combo(prior, mask);
          var offset := Offset(channels[..i], combo);
          consts := consts
            + [Constant(i, BuildCfg(channels[i].feature, prior, combo), AlwaysPresent(channels[..i]) + offset)];
        }
        assert ConstantsOf(channels, i)[..Pow2(|prior|)] == ConstantsOf(channels, i);
      }
    }
  }

  lemma NoFeatures(channels: seq<Channel>, i: nat)
    requires i < |channels| && UniqueFeatures(channels[..i]) == []
    ensures ConstantsOf(channels, i)
         == [Constant(i, BuildCfg(channels[i].feature, [], []), AlwaysPresent(channels[..i]))]
  {
    OffsetOfNone(channels[..i]);
    assert Combo([], 0) == [];
  }

  lemma {:induction false} OffsetOfNone(channels: seq<Channel>)
    ensures Offset(channels, []) == 0
  {
    if channels != [] { OffsetOfNone(channels[..|channels| - 1]); }
  }

  // ---------------------------------------------------------------------
  // Masks and feature sets
  // ---------------------------------------------------------------------

  ghost predicate Distinct(features: seq<Feature>) {
    forall i, j :: 0 <= i < j < |features| ==> features[i] != features[j]
  }

  lemma {:induction false} UniqueIsDistinct(channels: seq<Channel>)
    ensures Distinct(UniqueFeatures(channels))
    ensures forall i :: 0 <= i < |channels| && channels[i].feature.Some? ==>
      channels[i].feature.value in UniqueFeatures(channels)
  {
    if channels != [] {
      var init, last := channels[..|channels| - 1], channels[|channels| - 1];
      UniqueIsDistinct(init);
      forall i | 0 <= i < |channels| && channels[i].feature.Some?
        ensures channels[i].feature.value in UniqueFeatures(channels)
      {
        assert i < |init| ==> init[i] == channels[i];
      }
    }
  }

  lemma {:induction false} ComboMembers(features: seq<Feature>, mask: nat, j: nat)
    requires Distinct(features) && j < |features|
    ensures features[j] in Combo(features, mask) <==> Bit(mask, j)
    ensures forall f :: f in Combo(features, mask) ==> f in features
  {
    var n := |features| - 1;
    if j < n {
      ComboMembers(features[..n], mask, j);
    } else if n > 0 {
      ComboMembers(features[..n], mask, 0);
      assert features[n] !in features[..n];
    }
  }

  /** The mask of a feature set. */
  ghost function MaskOf(features: seq<Feature>, on: set<Feature>): nat {
    if features == [] then 0
    else 2 * MaskOf(features[1..], on) + (if features[0] in on then 1 else 0)
  }

  lemma {:induction false} MaskBits(features: seq<Feature>, on: set<Feature>)
    ensures MaskOf(features, on) < Pow2(|features|)
    ensures forall j :: 0 <= j < |features| ==> (Bit(MaskOf(features, on), j) <==> features[j] in on)
  {
    if features != [] {
      var m := MaskOf(features[1..], on);
      MaskBits(features[1..], on);
      forall j | 0 <= j < |features| ensures Bit(MaskOf(features, on), j) <==> features[j] in on {
        if j > 0 {
          assert MaskOf(features, on) / 2 == m && features[j] == features[1..][j - 1];
        }
      }
    }
  }

  /** Masks below 2^n are told apart by their first n bits. */
  lemma {:induction false} MasksDiffer(a: nat, b: nat, n: nat)
    requires a < Pow2(n) && b < Pow2(n)
    requires forall j: nat :: j < n ==> (Bit(a, j) <==> Bit(b, j))
    ensures a == b
  {
    if n > 0 {
      assert Bit(a, 0) <==> Bit(b, 0);
      forall j: nat | j < n - 1 ensures Bit(a / 2, j) <==> Bit(b / 2, j) {
        assert Bit(a, j + 1) <==> Bit(b, j + 1);
      }
      MasksDiffer(a / 2, b / 2, n - 1);
    }
  }

  lemma CfgMeans(own: Option<Feature>, prior: seq<Feature>, enabled: seq<Feature>, on: set<Feature>)
    ensures Active(BuildCfg(own, prior, enabled), on) <==>
      && (own.Some? ==> own.value in on)
      && forall j :: 0 <= j < |prior| ==> (prior[j] in on <==> prior[j] in enabled)
  {
    var cfg := BuildCfg(own, prior, enabled);
    var k := if own.Some? then 1 else 0;
    assert own.Some? ==> cfg[0] == Literal(own.value, true);
    assert forall j :: 0 <= j < |prior| ==> cfg[k + j] == Literal(prior[j], prior[j] in enabled);
    if !Active(cfg, on) {
      var l :| 0 <= l < |cfg| && (cfg[l].feature in on) != cfg[l].positive;
      if l >= k { assert cfg[l] == Literal(prior[l - k], prior[l - k] in enabled); }
    }
  }

  /** A constant is active exactly when its channel is enabled and its mask is the
      one of the enabled features. */
  lemma ActiveIsMask(channels: seq<Channel>, i: nat, mask: nat, on: set<Feature>)
    requires i < |channels| && mask < Pow2(|UniqueFeatures(channels[..i])|)
    ensures Active(ConstantFor(channels, i, mask).cfg, on)
       <==> Enabled(channels[i], on) && mask == MaskOf(UniqueFeatures(channels[..i]), on)
  {
    var features := UniqueFeatures(channels[..i]);
    CfgMeans(channels[i].feature, features, Combo(features, mask), on);
    UniqueIsDistinct(channels[..i]);
    MaskBits(features, on);
    forall j: nat | j < |features| ensures features[j] in Combo(features, mask) <==> Bit(mask, j) {
      ComboMembers(features, mask, j);
    }
    if forall j: nat :: j < |features| ==> (features[j] in on <==> Bit(mask, j)) {
      MasksDiffer(mask, MaskOf(features, on), |features|);
    }
  }

  /** The active constant numbers the channel by its rank. */
  lemma {:induction false} OffsetIsRank(channels: seq<Channel>, combo: seq<Feature>, on: set<Feature>)
    requires forall i :: 0 <= i < |channels| && channels[i].feature.Some? ==>
      (channels[i].feature.value in combo <==> channels[i].feature.value in on)
    ensures AlwaysPresent(channels) + Offset(channels, combo) == Rank(channels, on)
  {
    if channels != [] {
      var n := |channels| - 1;
      assert forall i :: 0 <= i < n ==> channels[..n][i] == channels[i];
      OffsetIsRank(channels[..n], combo, on);
    }
  }

  lemma ActiveValue(channels: seq<Channel>, i: nat, on: set<Feature>)
    requires i < |channels|
    ensures ConstantFor(channels, i, MaskOf(UniqueFeatures(channels[..i]), on)).value == Rank(channels[..i], on)
  {
    var prior := channels[..i];
    var features := UniqueFeatures(prior);
    var mask := MaskOf(features, on);
    UniqueIsDistinct(prior);
    MaskBits(features, on);
    forall p | 0 <= p < |prior| && prior[p].feature.Some?
      ensures prior[p].feature.value in Combo(features, mask) <==> prior[p].feature.value in on
    {
      var j :| 0 <= j < |features| && features[j] == prior[p].feature.value;
      ComboMembers(features, mask, j);
    }
    OffsetIsRank(prior, Combo(features, mask), on);
  }

  // ---------------------------------------------------------------------
  // The theorem
  // ---------------------------------------------------------------------

  ghost predicate ActiveAt(consts: seq<Constant>, c: nat, i: nat, on: set<Feature>) {
    c < |consts| && consts[c].channel == i && Active(consts[c].cfg, on)
  }

  /** Channel i's constants start here in the generated list. */
  function StartOf(channels: seq<Channel>, i: nat): nat
    requires i <= |channels|
  {
    |Constants(channels, i)|
  }

  lemma {:induction false} ConstantsAt(channels: seq<Channel>, n: nat, i: nat, m: nat)
    requires i < n <= |channels| && m < Pow2(|UniqueFeatures(channels[..i])|)
    ensures StartOf(channels, i) + m < |Constants(channels, n)|
    ensures Constants(channels, n)[StartOf(channels, i) + m] == ConstantFor(channels, i, m)
  {
    var before, own := Constants(channels, n - 1), ConstantsOf(channels, n - 1);
    assert Constants(channels, n) == before + own;
    if i < n - 1 {
      ConstantsAt(channels, n - 1, i, m);
      assert (before + own)[StartOf(channels, i) + m] == before[StartOf(channels, i) + m];
    } else {
      assert (before + own)[|before| + m] == own[m] == ConstantFor(channels, i, m);
    }
  }

  lemma {:induction false} ConstantIsAt(channels: seq<Channel>, n: nat, c: nat) returns (i: nat, m: nat)
    requires n <= |channels| && c < |Constants(channels, n)|
    ensures i < n && m < Pow2(|UniqueFeatures(channels[..i])|) && c == StartOf(channels, i) + m
    ensures Constants(channels, n)[c] == ConstantFor(channels, i, m)
  {
    if c < |Constants(channels, n - 1)| {
      i, m := ConstantIsAt(channels, n - 1, c);
    } else {
      i, m := n - 1, c - |Constants(channels, n - 1)|;
    }
  }

  /** For every channel list and every set of enabled features: an enabled channel
      has exactly one active constant, whose value is its rank among the enabled
      channels, and a disabled channel has none. */
  lemma IndexIsRank(channels: seq<Channel>, i: nat, on: set<Feature>)
    requires i < |channels|
    ensures var consts := Constants(channels, |channels|);
      var c := StartOf(channels, i) + MaskOf(UniqueFeatures(channels[..i]), on);
      && (Enabled(channels[i], on) ==> ActiveAt(consts, c, i, on) && consts[c].value == Rank(channels[..i], on))
      && (forall d: nat :: ActiveAt(consts, d, i, on) ==> Enabled(channels[i], on) && d == c)
  {
    var consts := Constants(channels, |channels|);
    var features := UniqueFeatures(channels[..i]);
    var mask := MaskOf(features, on);
    MaskBits(features, on);
    ConstantsAt(channels, |channels|, i, mask);
    ActiveIsMask(channels, i, mask, on);
    ActiveValue(channels, i, on);
    forall d: nat | ActiveAt(consts, d, i, on)
      ensures Enabled(channels[i], on) && d == StartOf(channels, i) + mask
    {
      OnlyActive(channels, i, on, d);
    }
  }

  lemma OnlyActive(channels: seq<Channel>, i: nat, on: set<Feature>, d: nat)
    requires i < |channels| && ActiveAt(Constants(channels, |channels|), d, i, on)
    ensures Enabled(channels[i], on) && d == StartOf(channels, i) + MaskOf(UniqueFeatures(channels[..i]), on)
  {
    var i', m := ConstantIsAt(channels, |channels|, d);
    assert i' == i;
    ActiveIsMask(channels, i, m, on);
  }

  // ---------------------------------------------------------------------
  // The count constant
  // ---------------------------------------------------------------------

  function UsesOf(channels: seq<Channel>, f: Feature): nat {
    if channels == [] then 0
    else UsesOf(channels[..|channels| - 1], f) + (if channels[|channels| - 1].feature == Some(f) then 1 else 0)
  }

  /** `let base = base + n` for each enabled feature, in order. */
  function CountFrom(channels: seq<Channel>, features: seq<Feature>, on: set<Feature>): nat {
    if features == [] then AlwaysPresent(channels)
    else
      var n := |features| - 1;
      CountFrom(channels, features[..n], on) + (if features[n] in on then UsesOf(channels, features[n]) else 0)
  }

  lemma {:induction false} CountSplits(channels: seq<Channel>, ch: Channel, features: seq<Feature>, on: set<Feature>)
    requires Distinct(features)
    ensures CountFrom(channels + [ch], features, on)
         == CountFrom(channels, features, on)
            + (if ch.feature.None? || (ch.feature.value in features && ch.feature.value in on) then 1 else 0)
  {
    var all := channels + [ch];
    assert all[..|all| - 1] == channels && all[|all| - 1] == ch;
    if features != [] {
      var n := |features| - 1;
      CountSplits(channels, ch, features[..n], on);
      assert features[n] !in features[..n];
    }
  }

  lemma {:induction false} CountOfUnused(channels: seq<Channel>, f: Feature)
    requires forall i :: 0 <= i < |channels| ==> channels[i].feature != Some(f)
    ensures UsesOf(channels, f) == 0
  {
    if channels != [] { CountOfUnused(channels[..|channels| - 1], f); }
  }

  /** The generated channel count is the number of enabled channels. */
  lemma {:induction false} CountIsRank(channels: seq<Channel>, on: set<Feature>)
    ensures CountFrom(channels, UniqueFeatures(channels), on) == Rank(channels, on)
  {
    if channels != [] {
      var prior, ch := channels[..|channels| - 1], channels[|channels| - 1];
      assert channels == prior + [ch];
      CountIsRank(prior, on);
      UniqueIsDistinct(prior);
      UniqueIsDistinct(channels);
      var seen, now := UniqueFeatures(prior), UniqueFeatures(channels);
      CountSplits(prior, ch, now, on);
      if ch.feature.Some? && ch.feature.value !in seen {
        NewFeatureUnused(prior, ch.feature.value, on);
        assert now == seen + [ch.feature.value];
      } else {
        assert now == seen;
      }
    }
  }

  /** A feature no channel uses adds nothing to the count. */
  lemma NewFeatureUnused(channels: seq<Channel>, f: Feature, on: set<Feature>)
    requires f !in UniqueFeatures(channels)
    ensures var seen := UniqueFeatures(channels); CountFrom(channels, seen + [f], on) == CountFrom(channels, seen, on)
  {
    var seen := UniqueFeatures(channels);
    UniqueIsDistinct(channels);
    forall i | 0 <= i < |channels| ensures channels[i].feature != Some(f) {
      assert channels[i].feature.Some? ==> channels[i].feature.value in seen;
    }
    CountOfUnused(channels, f);
    assert (seen + [f])[..|seen|] == seen;
  }

  // ---------------------------------------------------------------------
  // The numbering as a whole
  // ---------------------------------------------------------------------

  /** The constants a feature set leaves in the module, in order. */
  function ActiveOf(consts: seq<Constant>, on: set<Feature>): seq<Constant> {
    if consts == [] then []
    else
      var n := |consts| - 1;
      ActiveOf(consts[..n], on) + (if Active(consts[n].cfg, on) then [consts[n]] else [])
  }

  lemma {:induction false} ActiveJoin(a: seq<Constant>, b: seq<Constant>, on: set<Feature>)
    ensures ActiveOf(a + b, on) == ActiveOf(a, on) + ActiveOf(b, on)
    decreases |b|
  {
    if b == [] {
      assert a + b == a;
    } else {
      var n := |b| - 1;
      assert (a + b)[..|a + b| - 1] == a + b[..n] && (a + b)[|a + b| - 1] == b[n];
      ActiveJoin(a, b[..n], on);
      AppendAssoc(ActiveOf(a, on), ActiveOf(b[..n], on), if Active(b[n].cfg, on) then [b[n]] else []);
    }
  }

  /** Of a channel's constants only the one of the enabled features' mask is left. */
  lemma {:induction false} ActiveOfChannel(channels: seq<Channel>, i: nat, k: nat, on: set<Feature>)
    requires i < |channels| && k <= |ConstantsOf(channels, i)|
    ensures var mask := MaskOf(UniqueFeatures(channels[..i]), on);
      ActiveOf(ConstantsOf(channels, i)[..k], on)
        == if Enabled(channels[i], on) && mask < k then [ConstantFor(channels, i, mask)] else []
    decreases k
  {
    if k > 0 {
      var some := ConstantsOf(channels, i)[..k];
      assert some[..k - 1] == ConstantsOf(channels, i)[..k - 1] && some[k - 1] == ConstantFor(channels, i, k - 1);
      ActiveOfChannel(channels, i, k - 1, on);
      ActiveIsMask(channels, i, k - 1, on);
    }
  }

  lemma ChannelGives(channels: seq<Channel>, i: nat, on: set<Feature>)
    requires i < |channels|
    ensures var mask := MaskOf(UniqueFeatures(channels[..i]), on);
      && ActiveOf(ConstantsOf(channels, i), on)
         == (if Enabled(channels[i], on) then [ConstantFor(channels, i, mask)] else [])
      && ConstantFor(channels, i, mask).value == Rank(channels[..i], on)
  {
    var consts := ConstantsOf(channels, i);
    MaskBits(UniqueFeatures(channels[..i]), on);
    assert consts[..|consts|] == consts;
    ActiveOfChannel(channels, i, |consts|, on);
    ActiveValue(channels, i, on);
  }

  /** Numbered 0, 1, 2 ... with the channels below `n` in order. */
  ghost predicate Numbered(act: seq<Constant>, n: nat) {
    && (forall k :: 0 <= k < |act| ==> act[k].value == k && act[k].channel < n)
    && (forall j, k :: 0 <= j < k < |act| ==> act[j].channel < act[k].channel)
  }

  lemma {:induction false} PrefixNumbered(channels: seq<Channel>, n: nat, on: set<Feature>)
    requires n <= |channels|
    ensures var act := ActiveOf(Constants(channels, n), on);
      |act| == Rank(channels[..n], on) && Numbered(act, n)
    decreases n
  {
    if n > 0 {
      var i := n - 1;
      PrefixNumbered(channels, i, on);
      ChannelGives(channels, i, on);
      ActiveJoin(Constants(channels, i), ConstantsOf(channels, i), on);
      RankStep(channels, i, on);
      var act := ActiveOf(Constants(channels, i), on);
      if Enabled(channels[i], on) {
        NumberedNext(act, ConstantFor(channels, i, MaskOf(UniqueFeatures(channels[..i]), on)), i);
      } else {
        assert act + [] == act;
      }
    }
  }

  lemma RankStep(channels: seq<Channel>, i: nat, on: set<Feature>)
    requires i < |channels|
    ensures Rank(channels[..i + 1], on) == Rank(channels[..i], on) + (if Enabled(channels[i], on) then 1 else 0)
  {
    assert channels[..i + 1][..i] == channels[..i] && channels[..i + 1][i] == channels[i];
  }

  lemma NumberedNext(act: seq<Constant>, c: Constant, n: nat)
    requires Numbered(act, n) && c.value == |act| && c.channel == n
    ensures Numbered(act + [c], n + 1)
  {
  }

  /** For every channel list and feature set the active constants are numbered
      0 .. count - 1, each once, in channel order, `count` being the generated count. */
  lemma IndexIsNumbering(channels: seq<Channel>, on: set<Feature>)
    ensures var act := ActiveOf(Constants(channels, |channels|), on);
      |act| == CountFrom(channels, UniqueFeatures(channels), on) && Numbered(act, |channels|)
  {
    PrefixNumbered(channels, |channels|, on);
    assert channels[..|channels|] == channels;
    CountIsRank(channels, on);
  }
}
