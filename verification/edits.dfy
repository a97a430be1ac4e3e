/** The two notebook-editing handlers, `add_item_to_notebook` and
    `edit_item_in_notebook`. Each reduces to a decision about which single
    call to make on the notebook document; the document itself (what
    `update_line` and `add_line` do, where `white_space` and `src` come
    from) is not part of this model, so the decision is returned as an
    `Action` value and the document's state comes in as parameters. */
module NotebookEdits {
  import opened PyStrings

  /** The `replace` argument of `update_line`: passed explicitly, or left to
      the document's own default. */
  datatype ReplaceArg = Given(flag: bool) | Omitted

  /** The one mutation a handler asks of the notebook document. */
  datatype Action =
    | UpdateLine(id: string, text: string, replace: ReplaceArg)
    | AddLine(text: string)

  /** Result of the edit handler: save the edited line, show the stored
      source of the line for editing, or fail on a line id the document
      does not hold (the lookup `src[line_id]` raises). */
  datatype EditOutcome =
    | Save(action: Action)
    | Show(stored: string)
    | UnknownLine

  /** Adding a command to a notebook whose last line is `oldId`. An empty
      command continues the previous line with a bare newline; a command
      typed while the notebook's `white_space` is non-empty continues the
      previous line with the command on a new physical line; any other
      command starts a new line. Exactly one mutation results. */
  function AddItem(cmd: string, whiteSpace: string, oldId: string): (a: Action)
    ensures a.AddLine? <==> cmd != "" && whiteSpace == ""
    ensures a.AddLine? ==> a.text == cmd
    ensures a.UpdateLine? ==> a.id == oldId && a.replace == Given(false) && a.text == [Newline] + cmd
  {
    if cmd == "" then UpdateLine(oldId, [Newline], Given(false))
    else if |whiteSpace| != 0 then UpdateLine(oldId, [Newline] + cmd, Given(false))
    else AddLine(cmd)
  }

  /** An empty submission never starts a new line, whatever the document's
      whitespace state, and never adds text besides the newline. */
  lemma EmptyCommandContinues(whiteSpace: string, oldId: string)
    ensures AddItem("", whiteSpace, oldId) == UpdateLine(oldId, [Newline], Given(false))
  {
    assert [Newline] + "" == [Newline];
  }

  /** A query-string lookup with the empty string as default, as
      `request.GET.get(key, '')`. */
  function QueryGet(query: map<string, string>, key: string): string
  {
    if key in query then query[key] else ""
  }

  /** Editing line `lineId`: when the `save` parameter holds anything besides
      whitespace, `update_line` is called on the line with the stripped `cmd`
      parameter and the document's default `replace`; otherwise the stored
      source of the line is returned unchanged and nothing is mutated. */
  function EditItem(query: map<string, string>, src: map<string, string>, lineId: string): (r: EditOutcome)
    ensures r.Save? <==> !AllSpace(QueryGet(query, "save"))
    ensures r.Save? ==> r.action.UpdateLine? && r.action.id == lineId && r.action.replace == Omitted
    ensures r.Save? ==> exists i :: Trims(QueryGet(query, "cmd"), i, r.action.text)
    ensures r.Save? ==> r.action.text == "" || (!IsSpace(r.action.text[0]) && !IsSpace(r.action.text[|r.action.text| - 1]))
    ensures r.Show? <==> AllSpace(QueryGet(query, "save")) && lineId in src
    ensures r.Show? ==> r.stored == src[lineId]
  {
    StripBlankIff(QueryGet(query, "save"));
    if Strip(QueryGet(query, "save")) != "" then
      Save(UpdateLine(lineId, Strip(QueryGet(query, "cmd")), Omitted))
    else if lineId in src then
      Show(src[lineId])
    else
      UnknownLine
  }
}
