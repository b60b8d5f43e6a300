/**
  The hyperparameter tables of export_state_dict_checkpoint.py and the
  command-line choice among them. The script accepts exactly one argument,
  the model name; any other command line prints the usage text and exits,
  which is `None` here.
 */
module Config {
  import opened Wrappers
  import opened HeadPermutation

  /** The `params` dictionary written to `params.json`. */
  datatype Params = Params(dim: nat, multipleOf: nat, nHeads: nat, nLayers: nat, normEps: real, vocabSize: int)

  const Params7B := Params(4096, 256, 32, 32, 0.000001, -1)
  const Params13B := Params(5120, 256, 40, 40, 0.000001, -1)

  /** The table for a model name, as the `if`/`elif` chain on `sys.argv[1]` picks it. */
  function ParamsFor(model: string): (p: Option<Params>)
    ensures p.Some? <==> model in {"7B", "13B", "13B-ko"}
    ensures p.Some? ==> ValidHeads(p.value.nHeads, p.value.dim) && p.value.dim / p.value.nHeads == 128
  {
    if model == "7B" then Some(Params7B)
    else if model == "13B" then Some(Params13B)
    else if model == "13B-ko" then Some(Params13B)
    else None
  }

  /** `sys.argv` (program name first) to the selected table. */
  function SelectParams(argv: seq<string>): (p: Option<Params>)
    ensures p.Some? ==> |argv| == 2 && argv[1] in {"7B", "13B", "13B-ko"}
  {
    if |argv| != 2 then None else ParamsFor(argv[1])
  }

  /** The script runs on exactly the three model names it knows and on nothing else. */
  lemma SelectParamsAccepts(argv: seq<string>)
    ensures SelectParams(argv).Some? <==> |argv| == 2 && argv[1] in {"7B", "13B", "13B-ko"}
  {
  }

  /**
    Every table the script can select meets what `permute`/`unpermute` need:
    `n_heads` divides `dim` and the head dimension, 128, is even.
   */
  lemma ShippedParamsValid(argv: seq<string>)
    ensures SelectParams(argv).Some? ==>
      var p := SelectParams(argv).value;
      ValidHeads(p.nHeads, p.dim) && p.dim / p.nHeads == 128 && p.nLayers == p.nHeads
  {
  }
}
