/**
 * The tokens the page partitioner consumes: what the streaming HTML
 * tokenizer yields, one token per `Next()` call. The tokenizer itself, its
 * tag-name normalisation to atoms and `Token.String()` are not modelled;
 * each token carries the tag's atom (where it has one) and the string that
 * `Token.String()` gives for it, as opaque data.
 */
module Html {

  /** The `DataAtom` of a tag token. Only `head` and `template` are
      distinguished by the partitioner; every other tag keeps its name. */
  datatype Atom = HeadAtom | TemplateAtom | OtherAtom(name: string)

  /** Why the tokenizer stopped: end of input, or any other error. */
  datatype ScanError = EOF | Malformed(message: string)

  /** One token; `rendered` is its `String()` form. */
  datatype Token =
    | Text(rendered: string)
    | StartTag(atom: Atom, rendered: string)
    | EndTag(atom: Atom, rendered: string)
    | SelfClosingTag(atom: Atom, rendered: string)
    | Comment(rendered: string)
    | Doctype(rendered: string)
    | Error(error: ScanError)

  /** No error token occurs in `ts`. */
  predicate ErrorFree(ts: seq<Token>)
  {
    forall i :: 0 <= i < |ts| ==> !ts[i].Error?
  }

  /** The concatenated string forms of an error-free token sequence. */
  function Rendered(ts: seq<Token>): string
    requires ErrorFree(ts)
  {
    if ts == [] then "" else Rendered(ts[..|ts| - 1]) + ts[|ts| - 1].rendered
  }
}
