/** Open buffers: the model of internal/server/documents.go. */
module Documents {
  import opened Bytes
  import opened Positions
  import opened Syntax

  datatype ParseError = SyntaxError(pos: Pos, text: ByteString) | OtherError(message: ByteString)

  /** What the parser makes of a text; it may recover a tree and report an error at once. */
  datatype ParseResult = ParseResult(ast: Option<Node>, err: Option<ParseError>)

  type Parser = ByteString -> ParseResult

  /** The value of an open document. */
  datatype Doc = Doc(lang: ByteString, version: int, text: ByteString, ast: Option<Node>, parseErr: Option<ParseError>)

  function Parsed(parse: Parser, lang: ByteString, version: int, text: ByteString): Doc {
    Doc(lang, version, text, parse(text).ast, parse(text).err)
  }

  /** Tree and error are those of the text. */
  predicate Paired(parse: Parser, d: Doc) {
    d.ast == parse(d.text).ast && d.parseErr == parse(d.text).err
  }

  class Document {
    const uri: Uri
    var lang: ByteString
    var version: int
    var text: ByteString
    var ast: Option<Node>
    var parseErr: Option<ParseError>

    constructor (parse: Parser, uri: Uri, lang: ByteString, version: int, text: ByteString)
      ensures this.uri == uri && View() == Parsed(parse, lang, version, text)
    {
      this.uri := uri;
      this.lang := lang;
      this.version := version;
      this.text := text;
      var r := parse(text);
      ast, parseErr := r.ast, r.err;
    }

    function View(): Doc
      reads this
    {
      Doc(lang, version, text, ast, parseErr)
    }

    method Reparse(parse: Parser)
      modifies this
      ensures View() == Parsed(parse, old(lang), old(version), old(text))
    {
      var r := parse(text);
      ast, parseErr := r.ast, r.err;
    }
  }

  /** The open documents, by URI. `contents` are their values. */
  class DocumentStore {
    const parse: Parser
    var docs: map<Uri, Document>
    ghost var contents: map<Uri, Doc>

    constructor (parse: Parser)
      ensures this.parse == parse && docs == map[] && contents == map[] && Valid()
    {
      this.parse := parse;
      docs := map[];
      contents := map[];
    }

    /** A document is stored under its own URI, so no document is stored twice. */
    ghost predicate Valid()
      reads this, docs.Values
    {
      && docs.Keys == contents.Keys
      && forall u {:trigger docs[u]} :: u in docs ==> docs[u].uri == u && docs[u].View() == contents[u]
    }

    /** `Open`; an open document is replaced. */
    method Open(uri: Uri, lang: ByteString, version: int, text: ByteString) returns (d: Document)
      requires Valid()
      modifies this
      ensures Valid() && uri in docs && docs[uri] == d && fresh(d) && docs.Values <= old(docs.Values) + {d}
      ensures contents == old(contents)[uri := Parsed(parse, lang, version, text)]
    {
      d := new Document(parse, uri, lang, version, text);
      docs := docs[uri := d];
      contents := contents[uri := d.View()];
    }

    /** `Update`. */
    method Update(u: Uri, version: int, text: ByteString) returns (ok: bool)
      requires Valid()
      modifies docs.Values, this`contents
      ensures Valid() && ok == (u in docs)
      ensures contents == if ok then old(contents)[u := Parsed(parse, old(contents)[u].lang, version, text)]
        else old(contents)
    {
      if u !in docs {
        return false;
      }
      var d := docs[u];
      d.version := version;
      d.text := text;
      d.Reparse(parse);
      contents := contents[u := d.View()];
      return true;
    }

    /** `Save`; the text may be missing from the notification. */
    method Save(u: Uri, text: Option<ByteString>) returns (ok: bool)
      requires Valid()
      modifies docs.Values, this`contents
      ensures Valid() && ok == (u in docs)
      ensures contents == if ok && text.Some?
                          then
                            var d := old(contents)[u];
                            old(contents)[u := Parsed(parse, d.lang, d.version, text.value)]
                          else old(contents)
    {
      if u !in docs {
        return false;
      }
      var d := docs[u];
      if text.Some? {
        d.text := text.value;
        d.Reparse(parse);
        contents := contents[u := d.View()];
      }
      return true;
    }

    /** `Close`. */
    method Close(u: Uri) returns (ok: bool)
      requires Valid()
      modifies this
      ensures Valid() && ok == (u in old(docs)) && docs == old(docs) - {u}
      ensures contents == old(contents) - {u}
    {
      if u !in docs {
        return false;
      }
      docs := docs - {u};
      contents := contents - {u};
      return true;
    }

    /** `Get`. */
    method Get(u: Uri) returns (d: Document?)
      requires Valid()
      ensures (d == null) == (u !in contents)
      ensures d != null ==> u in docs && d == docs[u] && d.uri == u && d.View() == contents[u]
    {
      d := if u in docs then docs[u] else null;
    }
  }
}
