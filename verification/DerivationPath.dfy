/** Derivation paths as text, such as m/44'/0/7, and derivation by text. */
module DerivationPath {
  import opened Wrappers
  import opened Text
  import opened Bip32
  import opened Sequences

  const ROOT_ELEMENT_ALIAS: seq<string> := ["m", "M", "m'", "M'"]

  /** One step between slashes; a quote at the end asks for the hardened index.  None is the
      code's NaN, for which the whole path counts as malformed. */
  function ParseStep(step: string): Option<nat> {
    var isHardened := step != "" && step[|step| - 1] == '\'';
    var digits := if isHardened then step[..|step| - 1] else step;
    if digits == "" || digits[0] == '-' then None
    else
      match ParseDecimal(digits)
      case None => None
      case Some(index) => Some(if isHardened then index + HARDENED else index)
  }

  function ParseSteps(steps: seq<string>): Option<seq<nat>> {
    if steps == [] then Some([])
    else
      match (ParseStep(steps[0]), ParseSteps(steps[1..]))
      case (Some(index), Some(indexes)) => Some([index] + indexes)
      case _ => None
  }

  function GetDerivationIndexes(path: string): Option<seq<nat>> {
    var steps := Split(path, '/');
    if path in ROOT_ELEMENT_ALIAS then Some([])
    else if steps[0] !in ROOT_ELEMENT_ALIAS then None
    else ParseSteps(steps[1..])
  }

  predicate AllBelow(indexes: seq<nat>, bound: int) {
    forall i :: 0 <= i < |indexes| ==> indexes[i] < bound
  }

  predicate ValidPrivatePath(path: string) {
    var indexes := GetDerivationIndexes(path);
    indexes.Some? && AllBelow(indexes.value, MAX_INDEX)
  }

  predicate ValidPublicPath(path: string) {
    var indexes := GetDerivationIndexes(path);
    indexes.Some? && AllBelow(indexes.value, HARDENED)
  }

  function DerivePrivateText(p: Primitives, k: PrivateKey, path: string, nonCompliant: bool): Result<PrivateKey, Problem>
    requires p.curve.order > 0
  {
    if !ValidPrivatePath(path) then Failure(InvalidPath)
    else PrivatePath(p, k, GetDerivationIndexes(path).value, nonCompliant)
  }

  function DerivePublicText(p: Primitives, k: PublicKey, path: string): Result<PublicKey, Problem>
    requires p.curve.order > 0
  {
    if '\'' in path then Failure(InvalidIndexCantDeriveHardened)
    else if !ValidPublicPath(path) then Failure(InvalidPath)
    else PublicPath(p, k, GetDerivationIndexes(path).value)
  }

  // ----- the texts that are paths

  /** Decimal digits stand for an index, and with a quote behind them for a hardened one. */
  predicate Spelled(step: string, digits: string, index: nat) {
    && digits != "" && AllDigits(digits)
    && (|| (step == digits && index == NumberOf(digits))
        || (step == digits + "'" && index == NumberOf(digits) + 0x8000_0000))
  }

  ghost predicate StepDenotes(step: string, index: nat) {
    exists digits :: Spelled(step, digits, index)
  }

  lemma ParseStepOf(digits: string)
    requires digits != "" && AllDigits(digits)
    ensures ParseStep(digits) == Some(NumberOf(digits))
    ensures ParseStep(digits + "'") == Some(NumberOf(digits) + 0x8000_0000)
  {
    ParseDecimalExactly(digits);
    assert IsDigit(digits[0]) && IsDigit(digits[|digits| - 1]);
    QuotedStep(digits, NumberOf(digits));
  }

  lemma ParseStepExactly(step: string, index: nat)
    ensures ParseStep(step) == Some(index) <==> StepDenotes(step, index)
  {
    if ParseStep(step) == Some(index) {
      var isHardened := step[|step| - 1] == '\'';
      var digits := if isHardened then step[..|step| - 1] else step;
      ParseDecimalExactly(digits);
      assert isHardened ==> step == digits + "'";
      assert Spelled(step, digits, index);
    } else if digits :| Spelled(step, digits, index) {
      ParseStepOf(digits);
    }
  }

  ghost predicate StepsDenote(steps: seq<string>, indexes: seq<nat>) {
    |steps| == |indexes| && forall i :: 0 <= i < |steps| ==> StepDenotes(steps[i], indexes[i])
  }

  lemma {:induction false} ParseStepsExactly(steps: seq<string>, indexes: seq<nat>)
    ensures ParseSteps(steps) == Some(indexes) <==> StepsDenote(steps, indexes)
    decreases steps
  {
    if steps != [] {
      if indexes == [] {
        assert ParseSteps(steps) != Some(indexes);
      } else {
        ParseStepExactly(steps[0], indexes[0]);
        ParseStepsExactly(steps[1..], indexes[1..]);
        StepsDenoteMore(steps, indexes);
        assert indexes == [indexes[0]] + indexes[1..];
      }
    }
  }

  lemma StepsDenoteMore(steps: seq<string>, indexes: seq<nat>)
    requires steps != [] && indexes != []
    ensures StepsDenote(steps, indexes) <==> StepDenotes(steps[0], indexes[0]) && StepsDenote(steps[1..], indexes[1..])
  {
    if StepDenotes(steps[0], indexes[0]) && StepsDenote(steps[1..], indexes[1..]) {
      forall i | 0 <= i < |steps| ensures StepDenotes(steps[i], indexes[i]) {
        if i > 0 {
          assert steps[1..][i - 1] == steps[i] && indexes[1..][i - 1] == indexes[i];
        }
      }
    }
  }

  predicate IsRoot(piece: string) {
    piece == "m" || piece == "M" || piece == "m'" || piece == "M'"
  }

  lemma RootAliases(piece: string)
    ensures piece in ROOT_ELEMENT_ALIAS <==> IsRoot(piece)
  {
    assert ROOT_ELEMENT_ALIAS[0] == "m" && ROOT_ELEMENT_ALIAS[1] == "M";
    assert ROOT_ELEMENT_ALIAS[2] == "m'" && ROOT_ELEMENT_ALIAS[3] == "M'";
  }

  /** A path is a root and one step for every index, with slashes between them. */
  ghost predicate PathDenotes(path: string, indexes: seq<nat>) {
    var pieces := Split(path, '/');
    IsRoot(pieces[0]) && StepsDenote(pieces[1..], indexes)
  }

  /** Exactly these texts are paths; all others are malformed. */
  lemma ParseExactly(path: string, indexes: seq<nat>)
    ensures GetDerivationIndexes(path) == Some(indexes) <==> PathDenotes(path, indexes)
  {
    var pieces := Split(path, '/');
    RootAliases(path);
    RootAliases(pieces[0]);
    ParseStepsExactly(pieces[1..], indexes);
    if IsRoot(path) {
      assert pieces == [path];
      assert pieces[1..] == [];
    }
  }

  /** The valid paths for private and for public keys. */
  lemma ValidPaths(path: string)
    ensures ValidPrivatePath(path)
       <==> exists indexes: seq<nat> :: PathDenotes(path, indexes) && AllBelow(indexes, 0x1_0000_0000)
    ensures ValidPublicPath(path)
       <==> exists indexes: seq<nat> :: PathDenotes(path, indexes) && AllBelow(indexes, 0x8000_0000)
  {
    var parsed := GetDerivationIndexes(path);
    if parsed.Some? {
      ParseExactly(path, parsed.value);
    }
    forall indexes: seq<nat> | PathDenotes(path, indexes) ensures parsed == Some(indexes) {
      ParseExactly(path, indexes);
    }
  }

  /** Derivation by text fails for a malformed or invalid path, for a quote on the public side,
      and otherwise only if no index is left on the way. */
  lemma TextRefusals(p: Primitives, k: PrivateKey, public: PublicKey, path: string, nonCompliant: bool)
    requires p.curve.order > 0
    ensures !ValidPrivatePath(path) ==> DerivePrivateText(p, k, path, nonCompliant) == Failure(InvalidPath)
    ensures '\'' in path ==> DerivePublicText(p, public, path) == Failure(InvalidIndexCantDeriveHardened)
    ensures DerivePublicText(p, public, path) == Failure(InvalidPath) <==> '\'' !in path && !ValidPublicPath(path)
  {
    if '\'' !in path && ValidPublicPath(path) {
      PublicPathRefusal(p, public, GetDerivationIndexes(path).value);
    }
  }

  lemma {:induction false} PublicPathRefusal(p: Primitives, k: PublicKey, path: seq<nat>)
    requires p.curve.order > 0
    ensures PublicPath(p, k, path) != Failure(InvalidPath)
    decreases path
  {
    if path != [] {
      PublicRefusals(p, k, path[0], false);
      var child := DerivePublic(p, k, path[0], false);
      if child.Success? {
        PublicPathRefusal(p, child.value, path[1..]);
      }
    }
  }

  // ----- canonical text

  function StepText(index: nat): string {
    if index < HARDENED then Decimal(index) else Decimal(index - HARDENED) + "'"
  }

  function StepsText(indexes: seq<nat>): string {
    if indexes == [] then "" else "/" + (StepText(indexes[0]) + StepsText(indexes[1..]))
  }

  function PathText(indexes: seq<nat>): string {
    "m" + StepsText(indexes)
  }

  lemma DigitsOnly(n: nat)
    ensures var digits := Decimal(n);
            digits[0] != '-' && digits[|digits| - 1] != '\'' && '/' !in digits
  {
    var digits := Decimal(n);
    assert IsDigit(digits[0]) && IsDigit(digits[|digits| - 1]);
  }

  lemma QuotedStep(digits: string, index: nat)
    requires digits != "" && digits[0] != '-' && ParseDecimal(digits) == Some(index)
    ensures ParseStep(digits + "'") == Some(index + HARDENED)
  {
    assert (digits + "'")[..|digits|] == digits;
  }

  lemma ParseOfStepText(index: nat)
    ensures ParseStep(StepText(index)) == Some(index)
    ensures '/' !in StepText(index) && StepText(index) != ""
  {
    var n: nat := if index < HARDENED then index else index - HARDENED;
    ParseOfDecimal(n);
    DigitsOnly(n);
    if index >= HARDENED {
      QuotedStep(Decimal(n), n);
    }
  }

  /** The text splits into its head and pieces that parse to the indexes. */
  ghost predicate SplitsInto(text: string, head: string, indexes: seq<nat>) {
    var pieces := Split(text, '/');
    pieces[0] == head && ParseSteps(pieces[1..]) == Some(indexes)
  }

  lemma SplitsOneMore(head: string, rest: string, step: string, index: nat, indexes: seq<nat>)
    requires '/' !in head && SplitsInto(rest, step, indexes) && ParseStep(step) == Some(index)
    ensures SplitsInto(head + "/" + rest, head, [index] + indexes)
  {
    SplitAt(head, '/', rest);
    var pieces := Split(rest, '/');
    assert ([head] + pieces)[1..] == pieces;
  }

  lemma {:induction false} SplitOfSteps(head: string, indexes: seq<nat>)
    requires '/' !in head
    ensures SplitsInto(head + StepsText(indexes), head, indexes)
    decreases indexes
  {
    if indexes == [] {
      assert head + StepsText(indexes) == head;
    } else {
      var step, rest := StepText(indexes[0]), StepsText(indexes[1..]);
      ParseOfStepText(indexes[0]);
      SplitOfSteps(step, indexes[1..]);
      SplitsOneMore(head, step + rest, step, indexes[0], indexes[1..]);
      Associate(head, "/", step + rest);
      assert [indexes[0]] + indexes[1..] == indexes;
    }
  }

  /** Every list of indexes is read back from its text, which is valid when they are in range. */
  lemma ParseOfPathText(indexes: seq<nat>)
    ensures GetDerivationIndexes(PathText(indexes)) == Some(indexes)
    ensures ValidPrivatePath(PathText(indexes)) <==> AllBelow(indexes, MAX_INDEX)
  {
    SplitOfSteps("m", indexes);
    if indexes != [] {
      LongText(indexes);
    }
  }

  lemma LongText(indexes: seq<nat>)
    requires indexes != []
    ensures PathText(indexes) !in ROOT_ELEMENT_ALIAS
  {
    assert PathText(indexes)[1] == '/';
  }

  /** Deriving along the text of two lists is deriving along the one and then the other. */
  lemma DeriveTextConcat(p: Primitives, k: PrivateKey, first: seq<nat>, second: seq<nat>, nonCompliant: bool)
    requires p.curve.order > 0 && AllBelow(first, MAX_INDEX) && AllBelow(second, MAX_INDEX)
    ensures DerivePrivateText(p, k, PathText(first + second), nonCompliant)
         == match DerivePrivateText(p, k, PathText(first), nonCompliant)
            case Failure(problem) => Failure(problem)
            case Success(middle) => DerivePrivateText(p, middle, PathText(second), nonCompliant)
  {
    ParseOfPathText(first);
    ParseOfPathText(second);
    ParseOfPathText(first + second);
    PrivatePathConcat(p, k, first, second, nonCompliant);
  }

  /** For every string, public derivation along it succeeds exactly if it has no quote, is a
      valid public path and private derivation along it never meets a hardened index; the
      result is then the public half of what private derivation along it gives. */
  lemma NeuterCommutesOnText(p: Primitives, k: PrivateKey, path: string, nonCompliant: bool)
    requires p.curve.order > 1 && ValidPrivate(p, k)
    ensures var private := DerivePrivateText(p, k, path, nonCompliant);
            var public := DerivePublicText(p, Neuter(p, k), path);
            && (public.Success? <==>
                  '\'' !in path && ValidPublicPath(path) && NeverHardens(p, k, GetDerivationIndexes(path).value, nonCompliant))
            && (public.Success? ==> private.Success? && public.value == Neuter(p, private.value))
  {
    if ValidPublicPath(path) {
      NeuterCommutesOnPaths(p, k, GetDerivationIndexes(path).value, nonCompliant);
    }
  }
}
