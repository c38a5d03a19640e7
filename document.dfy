/**
 * A markdown document of the stand-alone sample and the name of the HTML
 * file generated for it.
 */
module Documents {

  /** A document: its text and its file name without extension; both
      default to the empty string. */
  datatype Document = Document(content: string, filenameWithoutExtension: string)

  /** A document whose fields were never set. */
  const DefaultDocument := Document("", "")

  /** Every space of `s` replaced by an underscore, as an ordinal
      string replacement of " " by "_" does. */
  function ReplaceSpaces(s: string): (r: string)
    ensures |r| == |s|
    ensures forall i :: 0 <= i < |s| ==> r[i] == (if s[i] == ' ' then '_' else s[i])
  {
    if s == [] then []
    else [if s[0] == ' ' then '_' else s[0]] + ReplaceSpaces(s[1..])
  }

  /** The output file name: the file name without extension with its
      spaces turned into underscores, followed by ".html". */
  function OutputFileName(d: Document): (r: string)
    ensures |r| == |d.filenameWithoutExtension| + 5
    ensures r[|r| - 5..] == ".html"
    ensures ' ' !in r
    ensures forall i :: 0 <= i < |d.filenameWithoutExtension| ==>
              r[i] == (if d.filenameWithoutExtension[i] == ' ' then '_'
                       else d.filenameWithoutExtension[i])
  {
    ReplaceSpaces(d.filenameWithoutExtension) + ".html"
  }

  /** A name without spaces is kept as it is. */
  lemma NoSpacesUnchanged(s: string)
    requires ' ' !in s
    ensures ReplaceSpaces(s) == s
  {
  }

  /** Without spaces in the name, the output name is the name plus ".html". */
  lemma OutputFileNameWithoutSpaces(d: Document)
    requires ' ' !in d.filenameWithoutExtension
    ensures OutputFileName(d) == d.filenameWithoutExtension + ".html"
  {
  }

  /** Replacing spaces a second time changes nothing. */
  lemma ReplaceSpacesIdempotent(s: string)
    ensures ReplaceSpaces(ReplaceSpaces(s)) == ReplaceSpaces(s)
  {
  }

  /** A document with default fields is written to ".html". */
  lemma DefaultOutputFileName()
    ensures OutputFileName(DefaultDocument) == ".html"
  {
  }
}
