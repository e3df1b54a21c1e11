/** The errors the two request handlers of server.js throw before answering
    with status 500. */
module Errors {

  datatype ServerError =
    | UrlRequired        // no `url` in the request body
    | InvalidYoutubeUrl  // `url` names neither youtube.com nor youtu.be
    | FormatRequired     // a video download without `format_id`
    | NoFormatsFound     // no line of the format table was recognised
  {
    /** The message the handler puts in the response's `details`. */
    function Message(): string {
      match this
      case UrlRequired => "URL \U{00E9} obrigat\U{00F3}ria"
      case InvalidYoutubeUrl => "URL do YouTube inv\U{00E1}lida"
      case FormatRequired => "Formato \U{00E9} obrigat\U{00F3}rio para v\U{00ED}deo"
      case NoFormatsFound => "Nenhum formato encontrado"
    }
  }
}
