/**
  `translate_state_dict_key` of export_state_dict_checkpoint.py: the name of a
  parameter in the merged adapter model becomes the name the target runtime
  expects, is dropped (rotary frequencies and adapter weights), or stops the
  export (anything the table does not know).
 */
module KeyTranslation {
  import opened Wrappers
  import opened Strings

  /** Inserted by the adapter wrapper; deleted wherever it occurs in a name. */
  const AdapterPrefix: string := "base_model.model."
  const LayersPrefix: string := "model.layers."
  const RotaryFrequencies: string := "rotary_emb.inv_freq"
  const AdapterMarker: string := "lora"

  /** The three outcomes of translating one name: `None` is `Dropped`, `NotImplementedError` is `Unrecognised`. */
  datatype Translation = Renamed(name: string) | Dropped | Unrecognised(key: string)

  /**
    The nine per-layer weights, in the order the translation tests them: the
    suffix of the source name, and what follows `layers.<N>` in the target name.
   */
  const LayerRenames: seq<(string, string)> := [
    (".self_attn.q_proj.weight", ".attention.wq.weight"),
    (".self_attn.k_proj.weight", ".attention.wk.weight"),
    (".self_attn.v_proj.weight", ".attention.wv.weight"),
    (".self_attn.o_proj.weight", ".attention.wo.weight"),
    (".mlp.gate_proj.weight", ".feed_forward.w1.weight"),
    (".mlp.down_proj.weight", ".feed_forward.w2.weight"),
    (".mlp.up_proj.weight", ".feed_forward.w3.weight"),
    (".input_layernorm.weight", ".attention_norm.weight"),
    (".post_attention_layernorm.weight", ".ffn_norm.weight")
  ]

  /** The first entry of `table` whose source suffix ends `k`, as the `elif` chain finds it. */
  function FirstSuffixMatch(k: string, table: seq<(string, string)>): (r: Option<nat>)
    ensures r.Some? ==> r.value < |table| && EndsWith(k, table[r.value].0)
    ensures r.Some? ==> forall j :: 0 <= j < r.value ==> !EndsWith(k, table[j].0)
    ensures r.None? <==> forall j :: 0 <= j < |table| ==> !EndsWith(k, table[j].0)
    decreases |table|
  {
    if table == [] then None
    else if EndsWith(k, table[0].0) then Some(0)
    else
      match FirstSuffixMatch(k, table[1..])
      case None => None
      case Some(i) => Some(i + 1)
  }

  /** A name under `model.layers.` splits into "model", "layers" and the split of the rest. */
  lemma SplitLayerKey(k: string)
    requires StartsWith(k, LayersPrefix)
    ensures Split(k, '.') == ["model", "layers"] + Split(k[|LayersPrefix|..], '.')
  {
    var rest := k[|LayersPrefix|..];
    assert k == "model" + ['.'] + ("layers" + ['.'] + rest);
    SplitAtSeparator("model", '.', "layers" + ['.'] + rest);
    SplitAtSeparator("layers", '.', rest);
  }

  /** `k.split(".")[2]`, the layer index of a name under `model.layers.`. */
  function LayerField(k: string): (layer: string)
    requires StartsWith(k, LayersPrefix)
    ensures '.' !in layer
  {
    SplitLayerKey(k);
    Split(k, '.')[2]
  }

  /** The three fixed target names. */
  const FixedTargets: set<string> := {"tok_embeddings.weight", "norm.weight", "output.weight"}

  /**
    `translate_state_dict_key`: delete the adapter prefix, then rename. Every
    new name is a fixed target or lies under `layers.`, and a rejected name
    is reported with the prefix deleted.
   */
  function TranslateKey(key: string): (t: Translation)
    ensures t.Renamed? ==> t.name in FixedTargets || StartsWith(t.name, "layers.")
    ensures t.Unrecognised? ==> t.key == RemoveAll(key, AdapterPrefix)
  {
    RenameKey(RemoveAll(key, AdapterPrefix))
  }

  /** The `if`/`elif` chain of `translate_state_dict_key`, applied to the name with the adapter prefix deleted. */
  function RenameKey(k: string): (t: Translation)
    ensures t.Renamed? ==> t.name in FixedTargets || StartsWith(t.name, "layers.")
    ensures t.Unrecognised? ==> t.key == k
    ensures !StartsWith(k, LayersPrefix) ==> t != Dropped
  {
    if k == "model.embed_tokens.weight" then Renamed("tok_embeddings.weight")
    else if k == "model.norm.weight" then Renamed("norm.weight")
    else if k == "lm_head.weight" then Renamed("output.weight")
    else if StartsWith(k, LayersPrefix) then RenameLayerKey(k)
    else Unrecognised(k)
  }

  /**
    The inner chain, for a name under `model.layers.`: a renamed name lies
    under `layers.`, and only a name with none of the nine suffixes is
    dropped or rejected.
   */
  function RenameLayerKey(k: string): (t: Translation)
    requires StartsWith(k, LayersPrefix)
    ensures t.Renamed? ==> StartsWith(t.name, "layers.")
    ensures t.Unrecognised? ==> t.key == k
    ensures !t.Renamed? ==> forall j :: 0 <= j < |LayerRenames| ==> !EndsWith(k, LayerRenames[j].0)
    ensures t == Dropped ==> EndsWith(k, RotaryFrequencies) || Contains(k, AdapterMarker)
  {
    var layer := LayerField(k);
    match FirstSuffixMatch(k, LayerRenames)
    case Some(i) =>
      UnderLayers(layer, LayerRenames[i].1);
      Renamed("layers." + layer + LayerRenames[i].1)
    case None =>
      if EndsWith(k, RotaryFrequencies) || Contains(k, AdapterMarker) then Dropped
      else Unrecognised(k)
  }

  /** A target name built under `layers.` starts with it. */
  lemma UnderLayers(layer: string, target: string)
    ensures StartsWith("layers." + layer + target, "layers.")
  {
    assert "layers." + layer + target == "layers." + (layer + target);
    AppendStartsWith("layers.", layer + target);
  }

  // ---------------------------------------------------------------------
  // Facts about the fixed names
  // ---------------------------------------------------------------------

  /** A layer index as the model writes it: decimal digits. */
  predicate IsLayerIndex(layer: string) {
    |layer| > 0 && forall c :: c in layer ==> '0' <= c <= '9'
  }

  /** None of the three fixed names lies under `model.layers.`. */
  lemma FixedNamesOutsideLayers()
    ensures !StartsWith("model.embed_tokens.weight", LayersPrefix)
    ensures !StartsWith("model.norm.weight", LayersPrefix)
    ensures !StartsWith("lm_head.weight", LayersPrefix)
  {
    StartsWithCharAt("model.embed_tokens.weight", LayersPrefix, 6);
    StartsWithCharAt("model.norm.weight", LayersPrefix, 6);
    StartsWithCharAt("lm_head.weight", LayersPrefix, 0);
  }

  /** A name under `model.layers.` goes straight to the inner chain. */
  lemma RenameLayerName(k: string)
    requires StartsWith(k, LayersPrefix)
    ensures RenameKey(k) == RenameLayerKey(k)
  {
    FixedNamesOutsideLayers();
    assert k != "model.embed_tokens.weight";
    assert k != "model.norm.weight";
    assert k != "lm_head.weight";
  }

  /** A name without a `b` has no adapter prefix to delete. */
  lemma NoAdapterPrefix(k: string)
    requires 'b' !in k
    ensures RemoveAll(k, AdapterPrefix) == k
  {
    ContainedChar(k, AdapterPrefix, 'b');
    RemoveAllAbsent(k, AdapterPrefix);
  }

  /** A distance from the end at which the source suffixes `i` and `j` of `LayerRenames` differ. */
  function Distinguisher(i: nat, j: nat): nat {
    if i < 7 && j < 7 then 12 else if i < 7 || j < 7 then 7 else 17
  }

  /** A name ending in one of the nine source suffixes ends in no other. */
  lemma SuffixesExclusive(x: string, i: nat, j: nat)
    requires i < |LayerRenames| && j < |LayerRenames| && i != j
    ensures !EndsWith(x + LayerRenames[i].0, LayerRenames[j].0)
  {
    EndsWithCharAt(x + LayerRenames[i].0, LayerRenames[j].0, Distinguisher(i, j));
  }

  // ---------------------------------------------------------------------
  // The renaming table
  // ---------------------------------------------------------------------

  /** The adapter wrapper's prefix does not change the translation. */
  lemma AdapterPrefixIgnored(k: string)
    ensures TranslateKey(AdapterPrefix + k) == TranslateKey(k)
  {
    RemoveAllLeading(AdapterPrefix, k);
  }

  /** A name free of the adapter prefix translates, with or without that prefix, as it renames. */
  lemma UnprefixedRenamed(k: string)
    requires RemoveAll(k, AdapterPrefix) == k
    ensures TranslateKey(k) == RenameKey(k)
    ensures TranslateKey(AdapterPrefix + k) == RenameKey(k)
  {
    AdapterPrefixIgnored(k);
  }

  // The facts about the three fixed names below come one lemma per name:
  // each compares a long literal character by character, and two such
  // comparisons in one proof exceed the verifier's resource budget.

  lemma EmbeddingUnprefixed()
    ensures RemoveAll("model.embed_tokens.weight", AdapterPrefix) == "model.embed_tokens.weight"
  {
    var k := "model.embed_tokens.weight";
    assert k == "model.embed" + "_tokens.weight";
    assert 'a' !in "model.embed" && 'a' !in "_tokens.weight";
    ContainedChar(k, AdapterPrefix, 'a');
    RemoveAllAbsent(k, AdapterPrefix);
  }

  lemma NormUnprefixed()
    ensures RemoveAll("model.norm.weight", AdapterPrefix) == "model.norm.weight"
  {
    ContainedChar("model.norm.weight", AdapterPrefix, 'a');
    RemoveAllAbsent("model.norm.weight", AdapterPrefix);
  }

  /**
    The token embedding, the final norm and the output head keep fixed target
    names (with the adapter prefix too, by `AdapterPrefixIgnored`).
   */
  lemma FixedNamesRenamed()
    ensures TranslateKey("model.embed_tokens.weight") == Renamed("tok_embeddings.weight")
    ensures TranslateKey("model.norm.weight") == Renamed("norm.weight")
    ensures TranslateKey("lm_head.weight") == Renamed("output.weight")
  {
    EmbeddingRenamed();
    NormRenamed();
    HeadRenamed();
  }

  lemma EmbeddingRenamed()
    ensures TranslateKey("model.embed_tokens.weight") == Renamed("tok_embeddings.weight")
  {
    EmbeddingUnprefixed();
  }

  lemma NormRenamed()
    ensures TranslateKey("model.norm.weight") == Renamed("norm.weight")
  {
    NormUnprefixed();
  }

  lemma HeadUnprefixed()
    ensures RemoveAll("lm_head.weight", AdapterPrefix) == "lm_head.weight"
  {
    ContainedChar("lm_head.weight", AdapterPrefix, 'o');
    RemoveAllAbsent("lm_head.weight", AdapterPrefix);
  }

  lemma HeadRenamed()
    ensures TranslateKey("lm_head.weight") == Renamed("output.weight")
  {
    HeadUnprefixed();
    var k := "lm_head.weight";
    assert k[0] == 'l' && "model.embed_tokens.weight"[0] == 'm' && "model.norm.weight"[0] == 'm';
    assert k != "model.embed_tokens.weight" && k != "model.norm.weight";
  }

  /** Under `model.layers.<N>` followed by the `i`-th source suffix, the `i`-th suffix is the first to match. */
  lemma OwnSuffixFirst(x: string, i: nat)
    requires i < |LayerRenames|
    ensures FirstSuffixMatch(x + LayerRenames[i].0, LayerRenames) == Some(i)
  {
    var k := x + LayerRenames[i].0;
    AppendEndsWith(x, LayerRenames[i].0);
    forall j | 0 <= j < |LayerRenames| && j != i
      ensures !EndsWith(k, LayerRenames[j].0)
    {
      SuffixesExclusive(x, i, j);
    }
  }

  /** The layer field of `model.layers.<N>.<rest>` is `N`. */
  lemma LayerFieldOf(layer: string, suffix: string)
    requires '.' !in layer && |suffix| > 0 && suffix[0] == '.'
    ensures StartsWith(LayersPrefix + layer + suffix, LayersPrefix)
    ensures LayerField(LayersPrefix + layer + suffix) == layer
  {
    var rest := layer + suffix;
    var k := LayersPrefix + rest;
    assert k == LayersPrefix + layer + suffix;
    AppendStartsWith(LayersPrefix, rest);
    SplitLayerKey(k);
    assert k[|LayersPrefix|..] == rest;
    assert rest == layer + ['.'] + suffix[1..];
    SplitAtSeparator(layer, '.', suffix[1..]);
  }

  /**
    Every source suffix starts a new dot-separated field, has no `b`, ends in
    `t` (of `weight`) and has `j` (of `proj`) or `m` (of `norm`) eight
    characters from its end; every target suffix starts a new field.
   */
  lemma SuffixShapes(i: nat)
    requires i < |LayerRenames|
    ensures var (source, target) := LayerRenames[i];
      && |source| >= 8 && source[0] == '.' && 'b' !in source
      && source[|source| - 1] == 't' && source[|source| - 8] in "jm"
      && |target| > 0 && target[0] == '.'
  {
  }

  /** A name built from `model.layers.`, a layer index and one of the nine suffixes is a layer name with that index. */
  lemma LayerWeightField(layer: string, i: nat)
    requires '.' !in layer && i < |LayerRenames|
    ensures var k := LayersPrefix + layer + LayerRenames[i].0;
      StartsWith(k, LayersPrefix) && LayerField(k) == layer
  {
    SuffixShapes(i);
    LayerFieldOf(layer, LayerRenames[i].0);
  }

  /** ... and it is none of the three fixed names. */
  lemma LayerWeightNotFixed(layer: string, i: nat)
    requires '.' !in layer && i < |LayerRenames|
    ensures var k := LayersPrefix + layer + LayerRenames[i].0;
      k != "model.embed_tokens.weight" && k != "model.norm.weight" && k != "lm_head.weight"
  {
    LayerWeightField(layer, i);
    FixedNamesOutsideLayers();
  }

  /** The renaming step alone, for the nine weights of layer `N`. */
  lemma LayerWeightRenameKey(layer: string, i: nat)
    requires '.' !in layer && i < |LayerRenames|
    ensures RenameKey(LayersPrefix + layer + LayerRenames[i].0) == Renamed("layers." + layer + LayerRenames[i].1)
  {
    LayerWeightField(layer, i);
    LayerWeightNotFixed(layer, i);
    OwnSuffixFirst(LayersPrefix + layer, i);
  }

  /**
    Each of the nine weights of layer `N` gets its target name under
    `layers.N`, with or without the adapter wrapper's prefix.
   */
  lemma LayerWeightRenamed(layer: string, i: nat)
    requires IsLayerIndex(layer) && i < |LayerRenames|
    ensures TranslateKey(LayersPrefix + layer + LayerRenames[i].0) == Renamed("layers." + layer + LayerRenames[i].1)
    ensures TranslateKey(AdapterPrefix + (LayersPrefix + layer + LayerRenames[i].0)) == Renamed("layers." + layer + LayerRenames[i].1)
  {
    var k := LayersPrefix + layer + LayerRenames[i].0;
    SuffixShapes(i);
    NoAdapterPrefix(k);
    UnprefixedRenamed(k);
    LayerWeightRenameKey(layer, i);
  }

  /** For a name under `model.layers.`, the layer index of the target name is the third dot-separated field of the source name. */
  lemma LayerIndexKept(key: string)
    requires StartsWith(RemoveAll(key, AdapterPrefix), LayersPrefix)
    requires TranslateKey(key).Renamed?
    ensures var k := RemoveAll(key, AdapterPrefix);
      var n := TranslateKey(key).name;
      var parts := Split(n, '.');
      && |parts| > 1 && parts[0] == "layers" && parts[1] == LayerField(k)
      && exists i :: 0 <= i < |LayerRenames| && n == "layers." + LayerField(k) + LayerRenames[i].1
  {
    var k := RemoveAll(key, AdapterPrefix);
    RenameLayerName(k);
    var i := FirstSuffixMatch(k, LayerRenames).value;
    LayerNameSplit(LayerField(k), i);
  }

  /** `layers.<N>` followed by a target suffix splits into "layers", `N` and the rest. */
  lemma LayerNameSplit(layer: string, i: nat)
    requires '.' !in layer && i < |LayerRenames|
    ensures var parts := Split("layers." + layer + LayerRenames[i].1, '.');
      |parts| > 1 && parts[0] == "layers" && parts[1] == layer
  {
    SuffixShapes(i);
    DottedNameSplit(layer, LayerRenames[i].1);
  }

  lemma DottedNameSplit(layer: string, target: string)
    requires '.' !in layer && |target| > 0 && target[0] == '.'
    ensures var parts := Split("layers." + layer + target, '.');
      |parts| > 1 && parts[0] == "layers" && parts[1] == layer
  {
    var tail := layer + ['.'] + target[1..];
    assert target == ['.'] + target[1..];
    assert "layers." == "layers" + ['.'];
    assert "layers." + layer + target == "layers" + ['.'] + tail;
    SplitAtSeparator("layers", '.', tail);
    SplitAtSeparator(layer, '.', target[1..]);
  }

  /** A name with none of the nine source suffixes. */
  predicate MatchesNoLayerWeight(k: string) {
    forall j :: 0 <= j < |LayerRenames| ==> !EndsWith(k, LayerRenames[j].0)
  }

  /** Dropped names are exactly the layer names with none of the nine suffixes that are rotary frequencies or adapter weights. */
  lemma DroppedExactly(key: string)
    ensures var k := RemoveAll(key, AdapterPrefix);
      TranslateKey(key) == Dropped <==>
        StartsWith(k, LayersPrefix) && MatchesNoLayerWeight(k)
        && (EndsWith(k, RotaryFrequencies) || Contains(k, AdapterMarker))
  {
    var k := RemoveAll(key, AdapterPrefix);
    if StartsWith(k, LayersPrefix) {
      RenameLayerName(k);
    }
  }

  /**
    The export stops exactly on a name that is none of the three fixed names
    and either lies outside `model.layers.` or, inside it, is neither one of
    the nine weights nor a dropped name. The error reports the name with the
    adapter prefix deleted.
   */
  lemma UnrecognisedExactly(key: string)
    ensures var k := RemoveAll(key, AdapterPrefix);
      TranslateKey(key).Unrecognised? <==>
        && k != "model.embed_tokens.weight" && k != "model.norm.weight" && k != "lm_head.weight"
        && (!StartsWith(k, LayersPrefix)
            || (MatchesNoLayerWeight(k) && !EndsWith(k, RotaryFrequencies) && !Contains(k, AdapterMarker)))
    ensures TranslateKey(key).Unrecognised? ==> TranslateKey(key).key == RemoveAll(key, AdapterPrefix)
  {
  }

  /** None of the three fixed names contains "lora". */
  // One lemma per name, for the same reason as the fixed-name facts above.
  lemma EmbeddingNotAdapter()
    ensures !Contains("model.embed_tokens.weight", AdapterMarker)
  {
    var k := "model.embed_tokens.weight";
    assert k == "model.embed" + "_tokens.weight";
    assert 'a' !in "model.embed" && 'a' !in "_tokens.weight";
    ContainedChar(k, AdapterMarker, 'a');
  }

  lemma NormNotAdapter()
    ensures !Contains("model.norm.weight", AdapterMarker)
  {
    ContainedChar("model.norm.weight", AdapterMarker, 'a');
  }

  lemma HeadNotAdapter()
    ensures !Contains("lm_head.weight", AdapterMarker)
  {
    ContainedChar("lm_head.weight", AdapterMarker, 'r');
  }

  /** An adapter name outside `model.layers.` is an error, not a drop. */
  lemma AdapterNameOutsideLayersRejected(key: string)
    requires !StartsWith(RemoveAll(key, AdapterPrefix), LayersPrefix)
    requires Contains(RemoveAll(key, AdapterPrefix), AdapterMarker)
    ensures TranslateKey(key) == Unrecognised(RemoveAll(key, AdapterPrefix))
  {
    var k := RemoveAll(key, AdapterPrefix);
    EmbeddingNotAdapter();
    NormNotAdapter();
    HeadNotAdapter();
    assert k != "model.embed_tokens.weight" && k != "model.norm.weight" && k != "lm_head.weight";
  }

  /** The per-layer rotary frequency buffer, `model.layers.<N>.self_attn.rotary_emb.inv_freq`. */
  function RotaryKey(layer: string): string {
    LayersPrefix + layer + ".self_attn.rotary_emb.inv_freq"
  }

  lemma RotaryKeyUnprefixed(layer: string)
    requires IsLayerIndex(layer)
    ensures RemoveAll(RotaryKey(layer), AdapterPrefix) == RotaryKey(layer)
  {
    var x := LayersPrefix + layer + ".self_attn.rotary_em";
    assert RotaryKey(layer) == x + ['b'] + ".inv_freq";
    ContainedAroundChar(x, 'b', ".inv_freq", AdapterPrefix);
    RemoveAllAbsent(RotaryKey(layer), AdapterPrefix);
  }

  lemma RotaryKeyRenamed(layer: string)
    requires IsLayerIndex(layer)
    ensures StartsWith(RotaryKey(layer), LayersPrefix) && RenameLayerKey(RotaryKey(layer)) == Dropped
  {
    var k := RotaryKey(layer);
    LayerFieldOf(layer, ".self_attn.rotary_emb.inv_freq");
    forall j | 0 <= j < |LayerRenames|
      ensures !EndsWith(k, LayerRenames[j].0)
    {
      SuffixShapes(j);
      EndsWithCharAt(k, LayerRenames[j].0, 0);
    }
    assert k == (LayersPrefix + layer + ".self_attn.") + RotaryFrequencies;
    AppendEndsWith(LayersPrefix + layer + ".self_attn.", RotaryFrequencies);
  }

  /** The rotary frequency buffer of every layer is dropped, with or without the adapter prefix. */
  lemma RotaryFrequenciesDropped(layer: string)
    requires IsLayerIndex(layer)
    ensures TranslateKey(RotaryKey(layer)) == Dropped
    ensures TranslateKey(AdapterPrefix + RotaryKey(layer)) == Dropped
  {
    RotaryKeyUnprefixed(layer);
    UnprefixedRenamed(RotaryKey(layer));
    RotaryKeyRenamed(layer);
    RenameLayerName(RotaryKey(layer));
  }

  /** An adapter matrix, `model.layers.<N>.<component>.lora_<A or B>.weight`. */
  function AdapterKey(layer: string, component: string, ab: string): string {
    LayersPrefix + layer + "." + component + ".lora_" + ab + ".weight"
  }

  /** An adapter matrix name has the adapter letter where every source suffix has `j` or `m`. */
  lemma AdapterKeyMatchesNoWeight(layer: string, component: string, ab: string)
    requires ab == "A" || ab == "B"
    ensures MatchesNoLayerWeight(AdapterKey(layer, component, ab))
  {
    var k := AdapterKey(layer, component, ab);
    var x := LayersPrefix + layer + "." + component + ".lora_";
    assert k == x + ab + ".weight";
    assert k[|k| - 8] == ab[0];
    forall j | 0 <= j < |LayerRenames|
      ensures !EndsWith(k, LayerRenames[j].0)
    {
      SuffixShapes(j);
      EndsWithCharAt(k, LayerRenames[j].0, 7);
    }
  }

  lemma AdapterKeyMarked(layer: string, component: string, ab: string)
    ensures Contains(AdapterKey(layer, component, ab), AdapterMarker)
  {
    var x := LayersPrefix + layer + "." + component + ".";
    var y := "_" + ab + ".weight";
    assert AdapterKey(layer, component, ab) == x + AdapterMarker + y;
    ContainsMiddle(x, AdapterMarker, y);
  }

  lemma AdapterKeyRenamed(layer: string, component: string, ab: string)
    requires IsLayerIndex(layer) && (ab == "A" || ab == "B")
    ensures StartsWith(AdapterKey(layer, component, ab), LayersPrefix)
    ensures RenameLayerKey(AdapterKey(layer, component, ab)) == Dropped
  {
    var rest := "." + component + ".lora_" + ab + ".weight";
    assert AdapterKey(layer, component, ab) == LayersPrefix + layer + rest;
    LayerFieldOf(layer, rest);
    AdapterKeyMatchesNoWeight(layer, component, ab);
    AdapterKeyMarked(layer, component, ab);
  }

  /**
    The low-rank adapter matrices `lora_A` and `lora_B` of any module of a
    layer are dropped, with or without the adapter prefix.
   */
  lemma AdapterWeightsDropped(layer: string, component: string, ab: string)
    requires IsLayerIndex(layer) && 'b' !in component && (ab == "A" || ab == "B")
    ensures TranslateKey(AdapterKey(layer, component, ab)) == Dropped
    ensures TranslateKey(AdapterPrefix + AdapterKey(layer, component, ab)) == Dropped
  {
    var k := AdapterKey(layer, component, ab);
    NoAdapterPrefix(k);
    UnprefixedRenamed(k);
    AdapterKeyRenamed(layer, component, ab);
    RenameLayerName(k);
  }
}
