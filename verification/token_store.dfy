/**
  The token file (`token.json`): `_readToken` and `_saveToken` of
  src/utils/token-manager.ts. File contents are abstracted to what reading
  them yields; JSON text and file-system calls are not modelled.
 */
module TokenStore {
  import opened Wrappers
  import opened Tokens

  /** The state of the token file as far as reading it is concerned. */
  datatype TokenFile =
    | NoTokenFile                     // the file does not exist
    | UnreadableTokenFile             // it exists but cannot be read or parsed
    | TokenRecord(token: Token)       // it parses to a token record

  /** Whether writing the file succeeds. */
  datatype WriteOutcome = WriteSucceeds | WriteFails

  /**
    Reading the token file: a missing or unreadable file yields no token and
    never an error; a readable one yields exactly the record it holds.
   */
  function ReadToken(f: TokenFile): (r: Option<Token>)
    ensures r.Some? <==> f.TokenRecord?
    ensures r.Some? ==> r.value == f.token
  {
    match f
    case TokenRecord(t) => Some(t)
    case _ => None
  }

  /** The boolean `_saveToken` returns, with the file as it is afterwards. */
  datatype Saved = Saved(ok: bool, file: TokenFile)

  /**
    Saving a token reports success as a boolean instead of raising. On
    success the file holds the token, so reading it back yields it; on
    failure the file is left as it was.
   */
  function SaveToken(f: TokenFile, t: Token, w: WriteOutcome): (s: Saved)
    ensures s.ok <==> w == WriteSucceeds
    ensures s.ok ==> ReadToken(s.file) == Some(t)
    ensures !s.ok ==> s.file == f
  {
    match w
    case WriteSucceeds => Saved(true, TokenRecord(t))
    case WriteFails => Saved(false, f)
  }
}
