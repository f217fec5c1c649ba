/** `extractDataFromPDF` of the batch pipeline, once the PDF has become text. */
module PdfExtractor {
  import opened Js
  import opened Extraction
  import PdfService

  function ExtractDataFromPdf(text: string): (r: Fields)
    ensures WellFormed(r)
    ensures NoBlankLine(r.notes)
  {
    ProjectRule(text);
    WoRule(text);
    PoRule(text);
    NotesChain(text);
    Fields(
      project := ProjectOf(text),
      pm := PmOf(text),
      wo := FirstDigits(text, WoRules),
      po := FirstDigits(text, PoRules),
      state := StateOf(text),
      notes := NotesOf(text, NotesRules))
  }

  /** The batch copy and the server copy agree on every text. The two source
      functions use the same regular expressions in the same order and differ
      only in comments and layout, so this copy is built from the same rules
      and the agreement holds by construction; the lemma records it. */
  lemma SameAsServer(text: string)
    ensures ExtractDataFromPdf(text) == PdfService.ExtractDataFromPdf(text)
  {
  }
}
