/** The marker values the operations report (one variant per marker class). */
module Signals {

  /** What `MetaDocument.register` can report; success is reported as `None`. */
  datatype RecordRegister = RegisterOk | RegisterFailed

  /** What `MetaDocument.read` reports. */
  datatype MetaDocumentLoad = LoadOk | LoadFailed

  /** The entries of an operation's status list. */
  datatype Status =
    | AddOk | AddFailed
    | CheckOutOk | CheckOutFailed
    | CheckInOk | CheckInFailed
    | MergeOk | MergeFailed
    | TicketSummaryUpdateOk | TicketSummaryUpdateFailed

  // src/signals.py defines neither of the two marker types below, although
  // src/text.py and src/operations.py import both; they are supplied here as
  // the code uses them.

  /** Where a duplicate search looks: single sentences or whole paragraphs. */
  datatype ContextMark = SentenceContext | ParagraphContext

  /** What a detect operation looks for. */
  datatype TargetMark = Duplicate
}
