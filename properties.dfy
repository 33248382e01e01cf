/** Properties of the mapping that relate several calls or several inputs. */
module PasteProperties {
  import opened Wrappers
  import opened PyStr
  import opened Responses
  import opened Pastes

  /**
   * A derived line count is exactly the number of `content.split("\n")`
   * segments, which rejoin to the content; it is therefore at least one.
   */
  lemma DerivedLineCountMatchesContent(filename: string, content: string, syntax: Option<string>,
                                       linesOfCode: Option<int>, characterCount: Option<int>)
    requires !TruthyInt(linesOfCode)
    ensures var f := File.New(filename, content, syntax, linesOfCode, characterCount);
      && f.linesOfCode == |Split(f.content, LineSeparator)| >= 1
      && Join(Split(f.content, LineSeparator), LineSeparator) == f.content
  {
    SplitLength(content, LineSeparator);
    JoinSplit(content, LineSeparator);
  }

  /**
   * Bridge from `File.FromData`'s contract to `SyntaxOf`: the syntax hint it
   * picks is `filename.rsplit(".")[-1]`, the unique last-dot suffix.
   */
  lemma FromDataSyntaxIsExtension(payload: FileResponse)
    requires File.FromData(payload).Success?
    ensures File.FromData(payload).value.syntax == Some(SyntaxOf(payload.filename.value))
  {
  }

  /** `File.from_data` does not consult `annotation` or `parent_id`. */
  lemma FromDataIgnoresAnnotation(payload: FileResponse, annotation: Option<string>,
                                  parentId: Option<string>)
    ensures File.FromData(payload.(annotation := annotation, parentId := parentId))
         == File.FromData(payload)
  {
  }

  /** Two files have the same `to_dict()` exactly when content, filename and syntax agree. */
  lemma ToDictForgetsMetrics(f: File, g: File)
    ensures f.ToDict() == g.ToDict()
        <==> f.content == g.content && f.filename == g.filename && f.syntax == g.syntax
  {
  }

  /** A missing `views` key and `views == 0` give different pastes. */
  lemma ViewsAbsentIsNotZero(payload: PasteResponse, parse: IsoParser)
    requires Paste.FromData(payload.(views := None), parse).Success?
    ensures Paste.FromData(payload.(views := Some(0)), parse).Success?
    ensures Paste.FromData(payload.(views := None), parse).value.views == None
    ensures Paste.FromData(payload.(views := Some(0)), parse).value.views == Some(0)
  {
  }

  /** When a file of the payload fails, the paste fails with the error of the first failing file. */
  lemma FromDataReportsFirstBadFile(payload: PasteResponse, parse: IsoParser)
    requires payload.files.Some? && !AllFilesConvert(payload.files.value)
    ensures var payloads := payload.files.value;
      exists k :: (0 <= k < |payloads| && AllFilesConvert(payloads[..k])
                   && File.FromData(payloads[k]) == Failure(Paste.FromData(payload, parse).error))
  {
    FilesFromDataFailsAtFirst(payload.files.value);
  }
}
