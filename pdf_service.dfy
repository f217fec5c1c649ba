/** `extractDataFromPDF` of the server, once the PDF has become text. */
module PdfService {
  import opened Text
  import opened Patterns
  import opened Extraction

  function ExtractDataFromPdf(text: string): (r: Fields)
    ensures WellFormed(r)
    ensures NoBlankLine(r.notes)
  {
    ProjectRule(text);
    WoRule(text);
    PoRule(text);
    NotesChain(text);
    Fields(
      project := ProjectOf(text),
      pm := PmOf(text),
      wo := FirstDigits(text, WoRules),
      po := FirstDigits(text, PoRules),
      state := StateOf(text),
      notes := NotesOf(text, NotesRules))
  }

  /** A text in which no pattern finds anything yields six empty fields. */
  lemma NothingFound(text: string)
    requires forall p: nat :: !LiteralAt(text, p, "Oneway") && !LiteralAt(text, p, "WO/PO")
    requires forall p: nat :: !LiteralAt(text, p, "K3D Work Order:") && !LiteralAt(text, p, "WO")
    requires forall p: nat :: !LiteralAt(text, p, "P.O. #:") && !LiteralAt(text, p, "PO")
    requires forall p: nat, j: nat :: !StateMatch(text, p, j)
    requires forall p: nat :: !LiteralAt(text, p, "Remarks:") && !LiteralAt(text, p, "Instructions:")
    requires forall p: nat :: !LiteralAt(text, p, "Ordered By:")
    ensures ExtractDataFromPdf(text) == Fields("", "", "", "", "", "")
  {
    ProjectRule(text);
    WoRule(text);
    PoRule(text);
    StateRule(text);
    NotesChain(text);
    PmRule(text);
  }
}
