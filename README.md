# Model of the adapter-checkpoint exporter

`export_state_dict_checkpoint.py` takes a base causal language model with a
LoRA adapter merged into it. It writes the merged weights in the naming and
layout convention of a different inference runtime. This project models the
part of the script that decides what is written:

- **`KeyTranslation`** (`translate_state_dict_key`). Each parameter name
  loses every occurrence of the adapter wrapper's prefix `base_model.model.`.
  It then ends in one of three ways:
  - it is renamed: one of the three fixed names, or one of the nine weights of
    a decoder layer, placed under `layers.<N>`;
  - it is dropped: the rotary frequency buffer, or any other layer name that
    mentions `lora`;
  - it stops the export: everything else, which is `NotImplementedError`.
- **`HeadPermutation`** (`permute` and `unpermute`). These reorder the rows of
  a `dim x dim` attention projection within each head's block of
  `dim / n_heads` rows. `permute` splits an interleaved head into two halves:
  the even rows first, then the odd rows. `unpermute` interleaves the two
  halves again. A matrix is the sequence of its rows, and its
  elements are never inspected.
- **`StateDictExport`** (the loop that builds `new_state_dict`). Each entry of
  the state dict, taken in iteration order, is translated:
  - a dropped entry is skipped;
  - a query or key projection (a target name containing `wq` or `wk`) is
    unpermuted;
  - every other entry is copied;
  - an unknown name stops the run.

  `ExportStateDict` is the loop itself, and `ConvertOne` is its body for one
  entry. `Export` is the specification the loop meets: it writes the
  per-entry outcomes (`ConvertEntry`) in order into an empty dict.
- **`Config`**: the three hyperparameter tables and the command-line choice
  among them.
- **`Strings`**: the Python string operations the translation uses, with
  Python's meaning. `replace(p, "")` deletes occurrences in a left-to-right
  scan. `split('.')` keeps empty fields. `p in s` is the substring test.
- **`Wrappers`**: `Option` and `Result`.

All source paths below are relative to the repository root.

## Model

| member | source | states |
|---|---|---|
| Strings.RemoveAll | export_state_dict_checkpoint.py:119 | `k.replace(p, "")` never makes the name longer. When it changes the name is stated by `RemoveAllUnchangedIff` and `RemoveAllLeading` |
| Strings.RemoveAllUnchangedIff | export_state_dict_checkpoint.py:119 | `k.replace(p, "")` returns `k` unchanged exactly when `p` does not occur in `k` |
| Strings.RemoveAllLeading | export_state_dict_checkpoint.py:119 | a leading occurrence of the prefix is deleted and the rest of the name is processed as if it stood alone |
| Strings.Split | export_state_dict_checkpoint.py:127 | `k.split(".")` gives at least one field and no field contains a dot. `JoinSplit` and `SplitJoin` state that it loses nothing |
| Strings.JoinSplit | export_state_dict_checkpoint.py:127 | joining the fields of `k.split(".")` with `.` gives `k` back |
| Strings.SplitJoin | export_state_dict_checkpoint.py:127 | splitting a join of dot-free fields gives the fields back |
| KeyTranslation.TranslateKey | export_state_dict_checkpoint.py:118-153 | every new name is one of the three fixed targets or lies under `layers.`. A rejected name is reported as the script prints it, with the adapter prefix deleted. The rows below state each branch |
| KeyTranslation.RenameKey | export_state_dict_checkpoint.py:120-153 | the renaming chain after the prefix is deleted: its new names are fixed targets or lie under `layers.`, it rejects a name as it is, and it drops no name outside `model.layers.` |
| KeyTranslation.RenameLayerKey | export_state_dict_checkpoint.py:126-153 | for a `model.layers.` name: a new name lies under `layers.`; only a name with none of the nine suffixes is dropped or rejected; a dropped name is a rotary frequency buffer or mentions `lora` |
| KeyTranslation.FirstSuffixMatch | export_state_dict_checkpoint.py:128-145 | the result is the first table entry whose source suffix ends the name; it is `None` exactly when no suffix matches |
| KeyTranslation.LayerField | export_state_dict_checkpoint.py:127 | the layer field `k.split(".")[2]` of a `model.layers.` name contains no dot |
| KeyTranslation.SuffixesExclusive | export_state_dict_checkpoint.py:128-145 | a name ending in one of the nine source suffixes ends in no other, so the order of the `elif` tests never matters |
| KeyTranslation.AdapterPrefixIgnored | export_state_dict_checkpoint.py:119 | a name with the adapter prefix translates exactly as the name without it |
| KeyTranslation.FixedNamesRenamed | export_state_dict_checkpoint.py:120-125 | the embedding, the final norm and the output head get `tok_embeddings.weight`, `norm.weight` and `output.weight` |
| KeyTranslation.LayerWeightRenamed | export_state_dict_checkpoint.py:126-145 | for any decimal layer index `N` and each of the nine weights, with or without the adapter prefix, the name becomes `layers.N` followed by that weight's target suffix |
| KeyTranslation.LayerIndexKept | export_state_dict_checkpoint.py:126-145 | every renamed layer name has `layers` as its first field and the source's third field as its second field, followed by one of the nine target suffixes |
| KeyTranslation.DroppedExactly | export_state_dict_checkpoint.py:146-147 | a name is dropped if and only if it lies under `model.layers.`, matches none of the nine suffixes, and ends in `rotary_emb.inv_freq` or contains `lora` |
| KeyTranslation.UnrecognisedExactly | export_state_dict_checkpoint.py:148-153 | the export stops if and only if the name is none of the fixed names and either lies outside `model.layers.` or, inside it, is neither a renamed nor a dropped name; the error carries the name without the adapter prefix |
| KeyTranslation.AdapterNameOutsideLayersRejected | export_state_dict_checkpoint.py:151-153 | a name outside `model.layers.` that contains `lora` stops the export; the drop rule applies only inside the layers |
| KeyTranslation.RotaryFrequenciesDropped | export_state_dict_checkpoint.py:146-147 | `model.layers.N.self_attn.rotary_emb.inv_freq` is dropped for every layer index, with or without the adapter prefix |
| KeyTranslation.AdapterWeightsDropped | export_state_dict_checkpoint.py:146-147 | the `lora_A` and `lora_B` matrices of any module of any layer are dropped, with or without the adapter prefix |
| HeadPermutation.Permute | export_state_dict_checkpoint.py:106-109 | `permute` of a `dim x dim` matrix is again `dim x dim` |
| HeadPermutation.Unpermute | export_state_dict_checkpoint.py:112-115 | `unpermute` of a `dim x dim` matrix is again `dim x dim` |
| HeadPermutation.PermuteMovesRow | export_state_dict_checkpoint.py:106-109 | `permute` moves input row `h*hd + 2*i + j` to output row `h*hd + j*hd/2 + i`, whole and within head `h` |
| HeadPermutation.UnpermuteMovesRow | export_state_dict_checkpoint.py:112-115 | `unpermute` moves input row `h*hd + j*hd/2 + i` to output row `h*hd + 2*i + j`, whole and within head `h` |
| HeadPermutation.UnpermutePermute | export_state_dict_checkpoint.py:106-115 | `unpermute(permute(w)) == w` for every `dim x dim` matrix |
| HeadPermutation.PermuteUnpermute | export_state_dict_checkpoint.py:106-115 | `permute(unpermute(w)) == w` for every `dim x dim` matrix |
| Config.ParamsFor | export_state_dict_checkpoint.py:21-86 | a table exists exactly for `7B`, `13B` and `13B-ko`. Each has a head layout `permute`/`unpermute` can reshape, with a head dimension of 128 |
| Config.SelectParams | export_state_dict_checkpoint.py:16-90 | a table is chosen only for exactly one argument naming one of the three models |
| Config.SelectParamsAccepts | export_state_dict_checkpoint.py:16-90 | a table is chosen if and only if there is exactly one argument and it is `7B`, `13B` or `13B-ko` |
| Config.ShippedParamsValid | export_state_dict_checkpoint.py:35-86 | every table the script can choose has `n_heads` dividing `dim`, a head dimension of 128 (which is even) and as many layers as heads, so both views in `permute`/`unpermute` exist |
| StateDictExport.ConvertEntry | export_state_dict_checkpoint.py:157-163 | one entry writes nothing exactly when its name is dropped. A written entry carries the translated name. A `wq`/`wk` value is written as a `dim x dim` matrix whose `permute` is the stored value, and any other value is written unchanged. A failure is an unknown name or a `wq`/`wk` value that is not `dim x dim` |
| StateDictExport.Collect | export_state_dict_checkpoint.py:156-163 | writing the per-entry outcomes in order succeeds only if every outcome succeeds; a failure is the error of some outcome (the first, by `CollectFailsIff`) |
| StateDictExport.Export | export_state_dict_checkpoint.py:156-163 | a completed export converted every entry. A stopped export carries the error of one of the entries |
| StateDictExport.ExportStateDict | export_state_dict_checkpoint.py:156-163 | the loop returns exactly `Export` of the state dict: the rebuilt dict, or the error of the entry that stopped it |
| StateDictExport.CollectStopped | export_state_dict_checkpoint.py:156-163 | once an entry has stopped the export, no later entry changes the outcome |
| StateDictExport.CollectFailsIff | export_state_dict_checkpoint.py:156-163 | the export stops if and only if some entry fails, and then with the error of the first failing entry |
| StateDictExport.CollectKeys | export_state_dict_checkpoint.py:156-163 | a completed export holds exactly the names that some entry writes |
| StateDictExport.CollectLastWrite | export_state_dict_checkpoint.py:160-163 | each written name holds the value written by the last entry that writes it |
| StateDictExport.LayerTargetNeedsUnpermute | export_state_dict_checkpoint.py:160 | of the nine renamed layer weights, exactly the query and key projections (`wq`, `wk`) contain `wq` or `wk` |
| StateDictExport.QueryKeyRestored | export_state_dict_checkpoint.py:159-161 | a query or key projection stored as `permute(w)` is written back as `w` under its new name, with or without the adapter prefix |
| StateDictExport.QueryKeyNotSquare | export_state_dict_checkpoint.py:161 | a query or key projection that is not `dim` rows of `dim` stops the export with `NotSquare`. This stands in for the error `view` raises on a tensor whose element count is not `dim * dim` (see "## Left out") |
| StateDictExport.OtherLayerWeightCopied | export_state_dict_checkpoint.py:162-163 | the other seven layer weights are written unchanged under their new names |
| StateDictExport.FixedEntriesCopied | export_state_dict_checkpoint.py:120-125 | the embedding, final norm and output head are written unchanged under their fixed new names |

## Left out

- Loading the tokenizer, the base model and the adapter through `transformers` and `peft`, and setting `merge_weights` (lines 14, 22-34, 44-56, 66-78, 92-97). The model starts from the merged state dict, given as a sequence of (name, matrix) pairs in iteration order.
- The `transformers` version assertion (lines 11-13): it is an environment check.
- The `inv_freq` tensor (lines 101-103): it is floating-point and is never written out.
- Writing `consolidated.00.pth` and `params.json`, and creating the directories (lines 165-179): file I/O.
- Printing the usage text and the unknown name (lines 17-18, 88-89, 149, 152). Printing is output only. `sys.exit()` is `None` from `SelectParams`; `NotImplementedError` is the `UnknownKey` error.
- Tensor dtype and device, and the element values: matrices are generic over the element type.
- StateDictExport.ExportStateDict: requires `ValidHeads(nHeads, dim)`, which `Config.ShippedParamsValid` shows every shipped table meets. The model does not cover the `view` error that another head layout would raise.
- StateDictExport.ConvertEntry: a query or key tensor reaches `view` only as a `dim x dim` list of rows. `view` would also accept another tensor with `dim * dim` elements; the model reports `NotSquare` for it instead.
- KeyTranslation.AdapterWeightsDropped: stated only for module paths without the letter `b`, so that no part of the name can be mistaken for the adapter prefix. The module paths of the adapted layers (`self_attn.q_proj`, `self_attn.v_proj` and the like) meet this.
- StateDictExport.QueryKeyNotSquare: `NotSquare` is reported for every query or key value that is not `dim` rows of `dim`. The script's `view` would also reshape a 2-D tensor with `dim * dim` elements in another shape, such as `(dim / 2) x (2 * dim)`, and carry on; the model does not capture that case.
- Every state-dict value is a matrix here, but the norm weights (`input_layernorm`, `post_attention_layernorm`, `model.norm`) and `inv_freq` are 1-D tensors in the script. Nothing is lost, because only the `wq`/`wk` values are ever inspected; the others are copied or dropped as they are.
