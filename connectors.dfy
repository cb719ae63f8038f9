/**
 * The ticket information a check-out works from (src/connectors.py,
 * `JIRATicketInfo`): the ticket id in upper case, the summary text, its
 * normalised form, and the branch name made from them.
 */
module Connectors {
  import opened PyStr
  import opened Constants
  import opened Optional
  import opened Signals
  import opened Ui

  /** `JIRATicketInfo._normalize(sep)`: the pieces of the text between
      whitespace and punctuation, empty pieces dropped, joined by `sep`, in
      upper case. */
  function NormalizeTicketText(text: string, sep: string): (r: string)
    ensures forall i :: 0 <= i < |r| ==> !IsLower(r[i])
    ensures '\\' !in text ==> r == NormalizeTicketTextAsWritten(text, sep)
  {
    WordsWithoutBackslash(text);
    var joined := Join(Words(text, SeparatorClass), sep);
    forall i | 0 <= i < |joined| ensures !IsLower(Upper(joined)[i]) {
      UpperKeepsClass(joined[i]);
    }
    Upper(joined)
  }

  /** `_normalize` with the pattern as the source builds it (see
      `SeparatorClassAsWritten`). */
  function NormalizeTicketTextAsWritten(text: string, sep: string): string
  {
    Upper(Join(Words(text, SeparatorClassAsWritten), sep))
  }

  /** With a one-character separator that is itself whitespace or
      punctuation, the normalised text has no doubled, leading or trailing
      separator, and apart from separators it is the text's other
      characters, in order, in upper case. */
  lemma TicketTextShape(text: string, c: char)
    requires c in SeparatorClass
    ensures Collapsed(NormalizeTicketText(text, [c]), c)
    ensures Remove(NormalizeTicketText(text, [c]), SeparatorClass) == Upper(Remove(text, SeparatorClass))
  {
    NormalizeShape(c, text);
    UpperCollapsed(Normalize(c, text), c);
    UpperRemove(Normalize(c, text));
  }

  /** As written, a backslash survives: `a\b` becomes `A\B` instead of `A_B`. */
  lemma TicketTextBackslashAsWritten()
    ensures NormalizeTicketTextAsWritten("a\\b", "_") == "A\\B"
    ensures NormalizeTicketText("a\\b", "_") == "A_B"
  {
    BackslashKept();
    BackslashReplaced();
    assert NormalizeTicketTextAsWritten("a\\b", "_") == Upper(NormalizeAsWritten('_', "a\\b"));
    assert NormalizeTicketText("a\\b", "_") == Upper(Normalize('_', "a\\b"));
    assert Upper("a\\b") == "A\\B";
    assert Upper("a_b") == "A_B";
  }

  /** `JIRATicketInfo` */
  class TicketInfo {
    const ticketId: string
    const ticketIdSep: string
    var text: string
    var normalizedText: string
    var branchName: Option<string>

    /** The normalised text always belongs to the text, and the text is
        either still empty or has a visible character. */
    ghost predicate Valid()
      reads this
    {
      && normalizedText == NormalizeTicketText(text, ticketIdSep)
      && (text == [] || !IsBlank(text))
    }

    /** `JIRATicketInfo(ticket_id, text, ticket_id_sep)`: blank text is not
        taken, and both texts stay empty. */
    constructor (ticketId: string, text: string, ticketIdSep: string)
      ensures this.ticketId == Upper(ticketId) && this.ticketIdSep == ticketIdSep
      ensures IsBlank(text) ==> this.text == [] && normalizedText == []
      ensures !IsBlank(text) ==> this.text == text && normalizedText == NormalizeTicketText(text, ticketIdSep)
      ensures !IsBlank(text) && '\\' !in text ==> normalizedText == NormalizeTicketTextAsWritten(text, ticketIdSep)
      ensures branchName == None
      ensures Valid()
    {
      this.ticketId := Upper(ticketId);
      this.ticketIdSep := ticketIdSep;
      this.text := [];
      this.normalizedText := [];
      this.branchName := None;
      new;
      assert normalizedText == NormalizeTicketText([], ticketIdSep);
      SetText(text);
    }

    /** The `text` setter: text with a visible character replaces the text
        and renormalises; blank text changes nothing. */
    method SetText(newText: string)
      modifies this
      ensures IsBlank(newText) ==> text == old(text) && normalizedText == old(normalizedText)
      ensures !IsBlank(newText) ==> text == newText && normalizedText == NormalizeTicketText(newText, ticketIdSep)
      ensures !IsBlank(newText) && '\\' !in newText ==> normalizedText == NormalizeTicketTextAsWritten(newText, ticketIdSep)
      ensures branchName == old(branchName)
      ensures old(Valid()) ==> Valid()
    {
      StripEmptyIffBlank(newText);
      if Strip(newText) != [] {
        text := newText;
        normalizedText := NormalizeTicketText(text, ticketIdSep);
      }
    }

    /** `update_summary`: without a prompt it reports failure and changes
        nothing; with one, the stripped reply (a parameter here, read from
        the terminal by the source) goes through the setter. */
    method UpdateSummary(request: Option<Message>, reply: string) returns (status: Status)
      modifies this
      ensures request.None? ==> status == TicketSummaryUpdateFailed
      ensures request.None? ==> text == old(text) && normalizedText == old(normalizedText)
      ensures request.Some? ==> status == TicketSummaryUpdateOk
      ensures request.Some? && !IsBlank(Strip(reply)) ==>
                text == Strip(reply) && normalizedText == NormalizeTicketText(Strip(reply), ticketIdSep)
      ensures request.Some? && !IsBlank(Strip(reply)) && '\\' !in Strip(reply) ==>
                normalizedText == NormalizeTicketTextAsWritten(Strip(reply), ticketIdSep)
      ensures request.Some? && IsBlank(Strip(reply)) ==>
                text == old(text) && normalizedText == old(normalizedText)
      ensures branchName == old(branchName)
      ensures old(Valid()) ==> Valid()
    {
      if request.Some? {
        SetText(Strip(reply));
        status := TicketSummaryUpdateOk;
      } else {
        status := TicketSummaryUpdateFailed;
      }
    }

    /** `make_branch_name`: the ticket id, the normalised text and the
        product version (the product id after its last separator, or all of
        it), joined by the separator; the result is also stored. Python
        rejects an empty separator in `rpartition`. */
    method MakeBranchName(productId: string) returns (name: string)
      requires ticketIdSep != []
      modifies this
      ensures name == BranchName(ticketId, normalizedText, productId, ticketIdSep)
      ensures branchName == Some(name)
      ensures text == old(text) && normalizedText == old(normalizedText)
    {
      var productVersion := RPartition(productId, ticketIdSep).tail;
      name := Join([ticketId, normalizedText, productVersion], ticketIdSep);
      JoinTriple(ticketId, normalizedText, productVersion, ticketIdSep);
      branchName := Some(name);
    }
  }

  /** The branch name for a ticket, its normalised text and a product id. */
  function BranchName(ticketId: string, normalizedText: string, productId: string, sep: string): (name: string)
    requires sep != []
    ensures name == ticketId + sep + normalizedText + sep + ProductVersion(productId, sep)
  {
    JoinTriple(ticketId, normalizedText, ProductVersion(productId, sep), sep);
    Join([ticketId, normalizedText, ProductVersion(productId, sep)], sep)
  }

  /** The text after the last separator of a product id, or all of it. */
  function ProductVersion(productId: string, sep: string): (v: string)
    requires sep != []
    ensures forall j :: !OccursAt(v, sep, j)
    ensures (forall j :: !OccursAt(productId, sep, j)) ==> v == productId
    ensures EndsWith(productId, v)
  {
    RPartitionLast(productId, sep);
    var p := RPartition(productId, sep);
    assert productId == (p.head + p.sep) + p.tail;
    p.tail
  }

  /** With a one-character separator, the product version is recovered from
      the branch name by the same `rpartition`. */
  lemma BranchNameEndsWithVersion(ticketId: string, normalizedText: string, productId: string, c: char)
    ensures RPartition(BranchName(ticketId, normalizedText, productId, [c]), [c]).tail == ProductVersion(productId, [c])
  {
    var v := ProductVersion(productId, [c]);
    forall i | 0 <= i < |v| ensures v[i] != c {
      assert v[i..i + 1] == [v[i]];
      assert !OccursAt(v, [c], i);
    }
    var x := ticketId + [c] + normalizedText;
    assert BranchName(ticketId, normalizedText, productId, [c]) == x + [c] + v;
    RPartitionAfterLastChar(x, c, v);
  }
}
