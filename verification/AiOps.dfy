/** The operations the AI may propose on a document's flat text. */
module AiOps {
  import opened Wrappers

  /** A verbatim quote an insertion should sit next to. */
  datatype Anchor = Anchor(quote: string, before: bool)

  datatype Op =
    | Insert(position: nat, text: string, anchor: Option<Anchor>)
    | Delete(start: nat, end: nat, expected: string)
    | Format(start: nat, end: nat, attributes: map<string, string>, expected: string)
  {
    /** The offset an operation is ordered by. */
    function At(): nat { if Insert? then position else start }
  }
}
