/**
  The loop of export_state_dict_checkpoint.py that builds `new_state_dict`:
  every entry of the merged model's state dict is translated; a dropped
  entry is skipped, an attention query or key matrix (`wq`, `wk`) is
  unpermuted back to the target runtime's row order, any other entry is
  copied, and an unknown name stops the whole export.

  The state dict is a sequence of (name, matrix) pairs in its iteration order.
 */
module StateDictExport {
  import opened Wrappers
  import opened Strings
  import opened KeyTranslation
  import opened HeadPermutation

  /** Why the export stops: `NotImplementedError`, or a `wq`/`wk` tensor that `view` could not reshape. */
  datatype ExportError = UnknownKey(key: string) | NotSquare(name: string)

  /** `"wq" in new_k or "wk" in new_k` */
  predicate NeedsUnpermute(n: string) {
    Contains(n, "wq") || Contains(n, "wk")
  }

  /** One pass of the loop body: the entry written to the new state dict, if any. */
  function ConvertEntry<T>(key: string, value: Matrix<T>, nHeads: nat, dim: nat): (c: Result<Option<(string, Matrix<T>)>, ExportError>)
    requires ValidHeads(nHeads, dim)
    ensures c == Success(None) <==> TranslateKey(key) == Dropped
    ensures c.Success? && c.value.Some? ==> TranslateKey(key) == Renamed(c.value.value.0)
    ensures c.Success? && c.value.Some? && !NeedsUnpermute(c.value.value.0) ==> c.value.value.1 == value
    ensures c.Success? && c.value.Some? && NeedsUnpermute(c.value.value.0) ==>
      IsSquare(c.value.value.1, dim) && Permute(c.value.value.1, nHeads, dim) == value
    ensures c.Failure? ==> TranslateKey(key).Unrecognised? || !IsSquare(value, dim)
  {
    match TranslateKey(key)
    case Unrecognised(k) => Failure(UnknownKey(k))
    case Dropped => Success(None)
    case Renamed(n) =>
      if !NeedsUnpermute(n) then Success(Some((n, value)))
      else if IsSquare(value, dim) then
        PermuteUnpermute(value, nHeads, dim);
        Success(Some((n, Unpermute(value, nHeads, dim))))
      else Failure(NotSquare(n))
  }

  // ---------------------------------------------------------------------
  // Which entries are unpermuted
  // ---------------------------------------------------------------------

  /** The target suffixes after `wk` mention neither `q` nor `k`. */
  lemma LaterTargetsPlain(i: nat)
    requires 2 <= i < |LayerRenames|
    ensures 'q' !in LayerRenames[i].1 && 'k' !in LayerRenames[i].1
  {
  }

  /** Of the nine layer weights, exactly the query and key projections are unpermuted. */
  lemma LayerTargetNeedsUnpermute(layer: string, i: nat)
    requires IsLayerIndex(layer) && i < |LayerRenames|
    ensures NeedsUnpermute("layers." + layer + LayerRenames[i].1) <==> i < 2
  {
    var x := "layers." + layer + ".attention.";
    var n := "layers." + layer + LayerRenames[i].1;
    if i == 0 {
      assert n == x + "wq" + ".weight";
      ContainsMiddle(x, "wq", ".weight");
    } else if i == 1 {
      assert n == x + "wk" + ".weight";
      ContainsMiddle(x, "wk", ".weight");
    } else {
      LaterTargetsPlain(i);
      assert 'q' !in n && 'k' !in n;
      ContainedChar(n, "wq", 'q');
      ContainedChar(n, "wk", 'k');
    }
  }

  lemma EmbeddingTargetPlain()
    ensures !NeedsUnpermute("tok_embeddings.weight")
  {
    ContainedChar("tok_embeddings.weight", "wq", 'q');
    assert "tok_embeddings.weight" == "tok_embeddings." + ['w'] + "eight";
    ContainedAroundChar("tok_embeddings.", 'w', "eight", "wk");
  }

  lemma NormAndOutputTargetsPlain()
    ensures !NeedsUnpermute("norm.weight") && !NeedsUnpermute("output.weight")
  {
    ContainedChar("norm.weight", "wq", 'q');
    ContainedChar("norm.weight", "wk", 'k');
    ContainedChar("output.weight", "wq", 'q');
    ContainedChar("output.weight", "wk", 'k');
  }

  /**
    A query or key projection stored in the merged model's row order, that
    is `permute` of a matrix, is written back as that matrix, with or
    without the adapter prefix on its name.
   */
  lemma QueryKeyRestored<T>(layer: string, i: nat, w: Matrix<T>, nHeads: nat, dim: nat)
    requires IsLayerIndex(layer) && i < 2 && ValidHeads(nHeads, dim) && IsSquare(w, dim)
    ensures var key := LayersPrefix + layer + LayerRenames[i].0;
      var written := Success(Some(("layers." + layer + LayerRenames[i].1, w)));
      && ConvertEntry(key, Permute(w, nHeads, dim), nHeads, dim) == written
      && ConvertEntry(AdapterPrefix + key, Permute(w, nHeads, dim), nHeads, dim) == written
  {
    LayerWeightRenamed(layer, i);
    LayerTargetNeedsUnpermute(layer, i);
    UnpermutePermute(w, nHeads, dim);
  }

  /** A query or key projection whose rows are not `dim` rows of `dim` stops the export. */
  lemma QueryKeyNotSquare<T>(layer: string, i: nat, v: Matrix<T>, nHeads: nat, dim: nat)
    requires IsLayerIndex(layer) && i < 2 && ValidHeads(nHeads, dim) && !IsSquare(v, dim)
    ensures ConvertEntry(LayersPrefix + layer + LayerRenames[i].0, v, nHeads, dim)
      == Failure(NotSquare("layers." + layer + LayerRenames[i].1))
  {
    LayerWeightRenamed(layer, i);
    LayerTargetNeedsUnpermute(layer, i);
  }

  /** The other seven layer weights are written unchanged under their new name. */
  lemma OtherLayerWeightCopied<T>(layer: string, i: nat, v: Matrix<T>, nHeads: nat, dim: nat)
    requires IsLayerIndex(layer) && 2 <= i < |LayerRenames| && ValidHeads(nHeads, dim)
    ensures var key := LayersPrefix + layer + LayerRenames[i].0;
      var written := Success(Some(("layers." + layer + LayerRenames[i].1, v)));
      && ConvertEntry(key, v, nHeads, dim) == written
      && ConvertEntry(AdapterPrefix + key, v, nHeads, dim) == written
  {
    LayerWeightRenamed(layer, i);
    LayerTargetNeedsUnpermute(layer, i);
  }

  /** The embedding, the final norm and the output head are written unchanged under their new names. */
  lemma FixedEntriesCopied<T>(v: Matrix<T>, nHeads: nat, dim: nat)
    requires ValidHeads(nHeads, dim)
    ensures ConvertEntry("model.embed_tokens.weight", v, nHeads, dim) == Success(Some(("tok_embeddings.weight", v)))
    ensures ConvertEntry("model.norm.weight", v, nHeads, dim) == Success(Some(("norm.weight", v)))
    ensures ConvertEntry("lm_head.weight", v, nHeads, dim) == Success(Some(("output.weight", v)))
  {
    FixedNamesRenamed();
    EmbeddingTargetPlain();
    NormAndOutputTargetsPlain();
  }

  /** The outcome of one entry: an error, nothing to write, or a (name, matrix) to write. */
  type Outcome<T> = Result<Option<(string, Matrix<T>)>, ExportError>

  /** The outcomes of the entries, in order. */
  function Outcomes<T>(entries: seq<(string, Matrix<T>)>, nHeads: nat, dim: nat): (cs: seq<Outcome<T>>)
    requires ValidHeads(nHeads, dim)
    ensures |cs| == |entries|
    ensures forall i :: 0 <= i < |entries| ==> cs[i] == ConvertEntry(entries[i].0, entries[i].1, nHeads, dim)
  {
    seq(|entries|, i requires 0 <= i < |entries| => ConvertEntry(entries[i].0, entries[i].1, nHeads, dim))
  }

  /** Writing the outcomes in order into an empty dict, stopping at the first error. */
  function Collect<T>(cs: seq<Outcome<T>>): (r: Result<map<string, Matrix<T>>, ExportError>)
    ensures r.Success? ==> forall i :: 0 <= i < |cs| ==> cs[i].Success?
    ensures r.Failure? ==> exists i :: 0 <= i < |cs| && cs[i] == Failure(r.error)
    decreases |cs|
  {
    if cs == [] then Success(map[])
    else
      match Collect(cs[..|cs| - 1])
      case Failure(e) => Failure(e)
      case Success(m) =>
        match cs[|cs| - 1]
        case Failure(e) => Failure(e)
        case Success(None) => Success(m)
        case Success(Some((n, v))) => Success(m[n := v])
  }

  /** `new_state_dict` after the whole state dict, or the error that stopped the script. */
  function Export<T>(entries: seq<(string, Matrix<T>)>, nHeads: nat, dim: nat): (r: Result<map<string, Matrix<T>>, ExportError>)
    requires ValidHeads(nHeads, dim)
    ensures r.Success? ==> forall i :: 0 <= i < |entries| ==> ConvertEntry(entries[i].0, entries[i].1, nHeads, dim).Success?
    ensures r.Failure? ==> exists i :: 0 <= i < |entries| && ConvertEntry(entries[i].0, entries[i].1, nHeads, dim) == Failure(r.error)
  {
    Collect(Outcomes(entries, nHeads, dim))
  }

  /** One more outcome extends the collection of the earlier ones. */
  lemma CollectSnoc<T>(cs: seq<Outcome<T>>, i: nat)
    requires i < |cs|
    ensures Collect(cs[..i + 1]) ==
      match Collect(cs[..i])
      case Failure(e) => Failure(e)
      case Success(m) =>
        match cs[i]
        case Failure(e) => Failure(e)
        case Success(None) => Success(m)
        case Success(Some((n, v))) => Success(m[n := v])
  {
    assert cs[..i + 1][..i] == cs[..i];
  }

  /** Once collecting has stopped, later outcomes do not change the error. */
  lemma {:induction false} CollectStopped<T>(cs: seq<Outcome<T>>, i: nat)
    requires i <= |cs| && Collect(cs[..i]).Failure?
    ensures Collect(cs) == Collect(cs[..i])
    decreases |cs| - i
  {
    if i < |cs| {
      assert cs[..i + 1][..i] == cs[..i];
      CollectStopped(cs, i + 1);
    } else {
      assert cs[..i] == cs;
    }
  }

  /** The loop body for one entry: the name and matrix it writes, nothing, or why the script stops. */
  method ConvertOne<T>(k: string, v: Matrix<T>, nHeads: nat, dim: nat) returns (outcome: Outcome<T>)
    requires ValidHeads(nHeads, dim)
    ensures outcome == ConvertEntry(k, v, nHeads, dim)
  {
    var newK := TranslateKey(k);
    match newK {
      case Unrecognised(u) =>
        outcome := Failure(UnknownKey(u));
      case Dropped =>
        outcome := Success(None);
      case Renamed(n) =>
        if NeedsUnpermute(n) {
          if IsSquare(v, dim) {
            outcome := Success(Some((n, Unpermute(v, nHeads, dim))));
          } else {
            outcome := Failure(NotSquare(n));
          }
        } else {
          outcome := Success(Some((n, v)));
        }
    }
  }

  /** The rebuild loop, with an early return where the script raises. */
  method ExportStateDict<T>(entries: seq<(string, Matrix<T>)>, nHeads: nat, dim: nat)
    returns (result: Result<map<string, Matrix<T>>, ExportError>)
    requires ValidHeads(nHeads, dim)
    ensures result == Export(entries, nHeads, dim)
  {
    ghost var cs := Outcomes(entries, nHeads, dim);
    var newStateDict: map<string, Matrix<T>> := map[];
    var i := 0;
    while i < |entries|
      invariant 0 <= i <= |entries|
      invariant Collect(cs[..i]) == Success(newStateDict)
    {
      var (k, v) := entries[i];
      var outcome := ConvertOne(k, v, nHeads, dim);
      CollectSnoc(cs, i);
      match outcome {
        case Failure(e) =>
          result := Failure(e);
          CollectStopped(cs, i + 1);
          return;
        case Success(None) =>
        case Success(Some((n, w))) =>
          newStateDict := newStateDict[n := w];
      }
      i := i + 1;
    }
    assert cs[..i] == cs;
    result := Success(newStateDict);
  }

  // ---------------------------------------------------------------------
  // What the export produces
  // ---------------------------------------------------------------------

  /**
    Collecting stops exactly when some outcome is an error, and then with
    the first error.
   */
  lemma {:induction false} CollectFailsIff<T>(cs: seq<Outcome<T>>)
    ensures Collect(cs).Failure? <==> exists i :: 0 <= i < |cs| && cs[i].Failure?
    ensures Collect(cs).Failure? ==>
      exists i :: 0 <= i < |cs| && cs[i] == Failure(Collect(cs).error)
        && forall j :: 0 <= j < i ==> cs[j].Success?
    decreases |cs|
  {
    if cs != [] {
      var last := |cs| - 1;
      var p := cs[..last];
      CollectFailsIff(p);
      if Collect(p).Failure? {
        var i :| 0 <= i < |p| && p[i] == Failure(Collect(p).error) && forall j :: 0 <= j < i ==> p[j].Success?;
        assert cs[i] == p[i];
      } else if cs[last].Failure? {
        assert forall j :: 0 <= j < last ==> p[j] == cs[j];
      } else {
        assert forall j :: 0 <= j < last ==> p[j] == cs[j];
      }
    }
  }

  /** An outcome that writes an entry. */
  predicate Writes<T>(c: Outcome<T>) {
    c.Success? && c.value.Some?
  }

  /** Outcome `i` writes a name that no later outcome writes again. */
  predicate LastWrite<T>(cs: seq<Outcome<T>>, i: nat)
    requires i < |cs|
  {
    Writes(cs[i]) && forall j :: i < j < |cs| && Writes(cs[j]) ==> cs[j].value.value.0 != cs[i].value.value.0
  }

  /** A completed collection holds exactly the names some outcome writes. */
  lemma {:induction false} CollectKeys<T>(cs: seq<Outcome<T>>)
    requires Collect(cs).Success?
    ensures forall n :: n in Collect(cs).value <==> exists i :: 0 <= i < |cs| && Writes(cs[i]) && cs[i].value.value.0 == n
    decreases |cs|
  {
    if cs != [] {
      var last := |cs| - 1;
      var p := cs[..last];
      CollectKeys(p);
      var m := Collect(p).value;
      forall n
        ensures n in Collect(cs).value <==> exists i :: 0 <= i < |cs| && Writes(cs[i]) && cs[i].value.value.0 == n
      {
        if n in m {
          var i :| 0 <= i < |p| && Writes(p[i]) && p[i].value.value.0 == n;
          assert cs[i] == p[i];
        }
        if exists i :: 0 <= i < |cs| && Writes(cs[i]) && cs[i].value.value.0 == n {
          var i :| 0 <= i < |cs| && Writes(cs[i]) && cs[i].value.value.0 == n;
          if i < last {
            assert p[i] == cs[i];
          }
        }
      }
    }
  }

  /** In a completed collection each written name holds what the last outcome writing it wrote. */
  lemma {:induction false} CollectLastWrite<T>(cs: seq<Outcome<T>>, i: nat)
    requires Collect(cs).Success? && i < |cs| && LastWrite(cs, i)
    ensures var (n, v) := cs[i].value.value; n in Collect(cs).value && Collect(cs).value[n] == v
    decreases |cs|
  {
    var last := |cs| - 1;
    var p := cs[..last];
    if i < last {
      assert p[i] == cs[i];
      assert LastWrite(p, i) by {
        forall j | i < j < |p| && Writes(p[j])
          ensures p[j].value.value.0 != p[i].value.value.0
        {
          assert p[j] == cs[j];
        }
      }
      CollectLastWrite(p, i);
    }
  }
}
