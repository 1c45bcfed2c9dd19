/**
 * The editor's custom bold toolbar command: its `execute` wraps the current
 * selection in `**`, or inserts `**Bold Text**` when nothing is selected.
 */
module BoldCommand {
  import opened Wrappers

  const Placeholder := "Bold Text"
  const Marker := "**"

  /** `state.selectedText || "Bold Text"`: a missing or empty selection is
      falsy and gives way to the placeholder. */
  function BoldBody(selected: Option<string>): (r: string)
    ensures r != ""
    ensures selected.Some? && selected.value != "" ==> r == selected.value
    ensures selected.None? || selected.value == "" ==> r == Placeholder
  {
    match selected
    case Some(text) => if text != "" then text else Placeholder
    case None => Placeholder
  }

  /** The text handed to `api.replaceSelection`. */
  function BoldReplacement(selected: Option<string>): (r: string)
    ensures |r| == |BoldBody(selected)| + 4
    ensures r[..2] == Marker && r[|r| - 2..] == Marker
    ensures r[2..|r| - 2] == BoldBody(selected)
  {
    var body := BoldBody(selected);
    var r := Marker + body + Marker;
    assert r[2..|r| - 2] == body;
    r
  }

  /** Undoes the wrapping: the text between a leading and a trailing `**`. */
  function Unbold(s: string): (r: Option<string>)
    ensures r.Some? ==> Marker + r.value + Marker == s
  {
    if |s| >= 4 && s[..2] == Marker && s[|s| - 2..] == Marker then
      assert s == s[..2] + s[2..|s| - 2] + s[|s| - 2..];
      Some(s[2..|s| - 2])
    else
      None
  }

  /** Unwrapping the replacement gives back the selection, or the placeholder
      when the selection was missing or empty; the inserted text is never
      the bare `****`. */
  lemma BoldRoundTrip(selected: Option<string>)
    ensures Unbold(BoldReplacement(selected)) == Some(BoldBody(selected))
    ensures selected.Some? && selected.value != "" ==>
      Unbold(BoldReplacement(selected)) == Some(selected.value)
    ensures BoldReplacement(selected) != Marker + Marker
  {
    var r := BoldReplacement(selected);
    assert |r| >= 5;
  }

  /** Every wrapped non-empty text is what the command inserts for that
      selection, so the command reaches exactly the `**x**` with `x` non-empty. */
  lemma BoldSurjective(s: string)
    requires Unbold(s).Some? && Unbold(s).value != ""
    ensures BoldReplacement(Unbold(s)) == s
  {
  }
}
