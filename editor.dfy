/** The editor's own values that the providers build and return. */
module Editor {
  import opened Wrappers
  import opened Types

  /** The only completion kind the providers use. */
  datatype CompletionItemKind = Text

  datatype CompletionItem = CompletionItem(
    labelText: string,
    kind: CompletionItemKind,
    detail: Option<string>,
    documentation: Markdown)

  /** A span of one line: the word under the pointer. */
  datatype Range = Range(line: nat, startCharacter: nat, endCharacter: nat)

  datatype Hover = Hover(contents: Markdown, range: Range)
}
