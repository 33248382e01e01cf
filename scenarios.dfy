/** Concrete responses and what the mapping makes of them. */
module Scenarios {
  import opened Wrappers
  import opened PyStr
  import opened Responses
  import opened Pastes

  const MainPy := FileResponse(None, Some(18), Some("print(1)\nprint(2)"), Some("main.py"), Some(2), None)

  /** The file of the sample response keeps its reported metrics and gets syntax "py". */
  lemma SampleFile()
    ensures File.FromData(MainPy)
         == Success(File("main.py", "print(1)\nprint(2)", Some("py"), 2, 18))
  {
  }

  /**
   * A zero `loc` and `charcount` are re-derived from the content: two lines
   * joined by one newline, such as "print(1)\nprint(2)", count as 2 lines.
   */
  lemma ZeroMetricsAreDerived(payload: FileResponse, first: string, second: string)
    requires LineSeparator !in first && LineSeparator !in second
    requires payload.content == Some(first + [LineSeparator] + second) && payload.filename.Some?
    requires payload.loc == Some(0) && payload.charcount == Some(0)
    ensures File.FromData(payload).Success?
    ensures File.FromData(payload).value.linesOfCode == 2
    ensures File.FromData(payload).value.characterCount == |first| + |second| + 1
  {
    var newline := [LineSeparator];
    assert Count(newline, LineSeparator) == 1;
    CountConcat(first, newline, LineSeparator);
    CountConcat(first + newline, second, LineSeparator);
  }

  /** The sample paste response, carrying `"expires": null`, gives a paste with one file and no expiry. */
  lemma SamplePaste(parse: IsoParser)
    requires parse("2021-01-01T00:00:00").Some?
    ensures var payload := PasteResponse(Some("abc123"), None, None, Some("2021-01-01T00:00:00"),
                                         Some(None), Some([MainPy]), None);
      && Paste.FromData(payload, parse).Success?
      && Paste.FromData(payload, parse).value.id == "abc123"
      && Paste.FromData(payload, parse).value.expires == None
      && Paste.FromData(payload, parse).value.views == None
      && Paste.FromData(payload, parse).value.files
         == [File("main.py", "print(1)\nprint(2)", Some("py"), 2, 18)]
  {
  }

  /** The same response without an `expires` key produces no paste: the key is read with `payload["expires"]`. */
  lemma MissingExpires(parse: IsoParser)
    ensures Paste.FromData(PasteResponse(Some("abc123"), None, None, Some("2021-01-01T00:00:00"),
                                         None, Some([MainPy]), None), parse)
         == Failure(MissingKey("expires"))
  {
  }

  /** A response without `id` produces no paste. */
  lemma MissingId(parse: IsoParser)
    ensures Paste.FromData(PasteResponse(None, None, None, Some("2021-01-01T00:00:00"),
                                         Some(None), Some([MainPy]), None), parse)
         == Failure(MissingKey("id"))
  {
  }

  /** An unparseable `created_at` produces no paste. */
  lemma MalformedCreatedAt(parse: IsoParser)
    requires parse("not-a-date").None?
    ensures Paste.FromData(PasteResponse(Some("abc123"), None, None, Some("not-a-date"),
                                         Some(None), Some([MainPy]), None), parse)
         == Failure(InvalidIsoFormat("not-a-date"))
  {
  }
}
