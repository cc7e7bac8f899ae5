/** `choose_model`: pick the model the chat will use from the names the
    provider reports. The preferred name wins when it is listed; otherwise the
    first listed name of a fixed fallback list; otherwise selection fails with a
    message that lists every name the provider reported. */
module ModelSelection {
  import Text

  /** The preferred model `main` asks for, which is also the parameter's default. */
  const DefaultModel: string := "gemini-flash-latest"

  /** The fallback names, tried in this order when the preferred one is not listed. */
  const Fallbacks: seq<string> := ["gemini-2.5-flash", "gemini-2.5-flash-lite", "gemini-flash-latest"]

  /** What asking the provider for its models produced: the names, in the order
      the provider gave them, or the text of the exception it raised. */
  datatype Listing = Listed(names: seq<string>) | ListingFailed(reason: string)

  /** What `choose_model` produces: a model name, or the text of the
      `RuntimeError` it raises. */
  datatype Choice = Chosen(name: string) | Rejected(message: string)

  /** Message of the error raised when the provider could not list its models. */
  function ListingErrorMessage(reason: string): string {
    "Failed to list models: " + reason
  }

  /** Message of the error raised when no acceptable model is listed: the
      preferred name, then every listed name, one per line. */
  function UnavailableMessage(preferred: string, names: seq<string>): string {
    "Preferred model '" + preferred + "' not available. Models you can access:\n"
    + Text.Join(names, "\n")
  }

  /** The fallback loop: the index of the first candidate that is listed, or
      `|candidates|` when none is. */
  function FirstListed(candidates: seq<string>, names: seq<string>): (k: nat)
    ensures k <= |candidates|
    ensures forall j :: 0 <= j < k ==> candidates[j] !in names
    ensures k < |candidates| ==> candidates[k] in names
    decreases |candidates|
  {
    if candidates == [] || candidates[0] in names then 0
    else 1 + FirstListed(candidates[1..], names)
  }

  /** `choose_model(preferred)`, with the provider's answer to the model listing
      given as `listing`. */
  function ChooseModel(preferred: string, listing: Listing): (r: Choice)
    // A failed listing is reported with the provider's reason.
    ensures listing.ListingFailed? ==> r == Rejected(ListingErrorMessage(listing.reason))
    // A listed preferred name is chosen, whatever the fallbacks are.
    ensures listing.Listed? && preferred in listing.names ==> r == Chosen(preferred)
    // Otherwise the first listed fallback, in the fallback order, is chosen.
    ensures listing.Listed? && preferred !in listing.names ==>
      forall k :: 0 <= k < |Fallbacks| && Fallbacks[k] in listing.names
        && (forall j :: 0 <= j < k ==> Fallbacks[j] !in listing.names)
        ==> r == Chosen(Fallbacks[k])
    // Selection fails only when neither the preferred name nor any fallback is listed.
    ensures listing.Listed? && r.Rejected? ==>
      preferred !in listing.names && forall j :: 0 <= j < |Fallbacks| ==> Fallbacks[j] !in listing.names
    // Whatever is chosen was listed by the provider.
    ensures r.Chosen? ==> listing.Listed? && r.name in listing.names
  {
    match listing
    case ListingFailed(reason) => Rejected(ListingErrorMessage(reason))
    case Listed(names) =>
      if preferred in names then Chosen(preferred)
      else
        var k := FirstListed(Fallbacks, names);
        if k < |Fallbacks| then Chosen(Fallbacks[k])
        else Rejected(UnavailableMessage(preferred, names))
  }

  /** When nothing acceptable is listed, selection fails, and its message names
      the preferred model and every model the provider listed. */
  lemma ChooseModelFailureMessage(preferred: string, names: seq<string>)
    requires preferred !in names
    requires forall j :: 0 <= j < |Fallbacks| ==> Fallbacks[j] !in names
    ensures ChooseModel(preferred, Listed(names)).Rejected?
    ensures Text.Contains(ChooseModel(preferred, Listed(names)).message, preferred)
    ensures forall i :: 0 <= i < |names| ==>
      Text.Contains(ChooseModel(preferred, Listed(names)).message, names[i])
  {
    var head := "Preferred model '";
    var middle := "' not available. Models you can access:\n";
    var joined := Text.Join(names, "\n");
    var message := UnavailableMessage(preferred, names);
    assert FirstListed(Fallbacks, names) == |Fallbacks|;
    assert message == head + preferred + (middle + joined);
    Text.OccursInContext(head, preferred, middle + joined, preferred, 0);
    Text.JoinContainsItems(names, "\n");
    forall i | 0 <= i < |names| ensures Text.Contains(message, names[i]) {
      var k :| 0 <= k <= |joined| && Text.OccursAt(joined, names[i], k);
      assert message == head + preferred + middle + joined + [];
      Text.OccursInContext(head + preferred + middle, joined, [], names[i], k);
    }
  }

  /** Selection looks only at which names are listed: listing the same names in
      another order, or with repeats, chooses the same model. */
  lemma ChooseModelMembershipOnly(preferred: string, names: seq<string>, names': seq<string>)
    requires forall n :: n in names <==> n in names'
    ensures ChooseModel(preferred, Listed(names)).Chosen? == ChooseModel(preferred, Listed(names')).Chosen?
    ensures ChooseModel(preferred, Listed(names)).Chosen? ==>
      ChooseModel(preferred, Listed(names)) == ChooseModel(preferred, Listed(names'))
  {
    FirstListedMembershipOnly(Fallbacks, names, names');
  }

  /** The fallback search, too, looks only at which names are listed. */
  lemma {:induction false} FirstListedMembershipOnly(candidates: seq<string>, names: seq<string>, names': seq<string>)
    requires forall n :: n in names <==> n in names'
    ensures FirstListed(candidates, names) == FirstListed(candidates, names')
    decreases |candidates|
  {
    if candidates != [] && candidates[0] !in names {
      FirstListedMembershipOnly(candidates[1..], names, names');
    }
  }

  /** With the default preference, which is also the last fallback, selection
      succeeds exactly when one of the three fallback names is listed, and the
      default is chosen exactly when it is listed, even if an earlier fallback
      is listed too: the fallback loop never gets to its last entry. */
  lemma DefaultPreference(names: seq<string>)
    ensures ChooseModel(DefaultModel, Listed(names)).Chosen? <==>
      exists j :: 0 <= j < |Fallbacks| && Fallbacks[j] in names
    ensures ChooseModel(DefaultModel, Listed(names)).Chosen? ==>
      (ChooseModel(DefaultModel, Listed(names)).name == DefaultModel <==> DefaultModel in names)
  {
    var r := ChooseModel(DefaultModel, Listed(names));
    assert Fallbacks[2] == DefaultModel;
    if DefaultModel !in names {
      var k := FirstListed(Fallbacks, names);
      if k < |Fallbacks| {
        assert k != 2;
        assert Fallbacks[k] != DefaultModel by {
          assert Fallbacks[0] != DefaultModel && Fallbacks[1] != DefaultModel;
        }
      }
    }
  }
}
