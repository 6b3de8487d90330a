/** The fixed texts: byte by byte they are the words of the source. */
module Names {
  import opened Bytes
  import opened Printer
  import M = Message
  import P = Patch
  import R = Requests

  lemma Punctuation()
    ensures [LBRACE, RBRACE, LBRACKET, RBRACKET, COLON, COMMA, QUOTE, BACKSLASH] == Ascii("{}[]:,\"\\")
    ensures [SLASH, TILDE, ZERO, ONE, MINUS, PLUS, DOT, SPACE] == Ascii("/~01-+. ")
    ensures NUL == 0 && NEWLINE == 10
  {
  }

  lemma Literals()
    ensures NULL_TEXT == Ascii("null") && TRUE_TEXT == Ascii("true") && FALSE_TEXT == Ascii("false")
  {
  }

  lemma MessageMembers()
    ensures M.JSONRPC == Ascii("jsonrpc") && M.METHOD == Ascii("method") && M.PARAMS == Ascii("params")
    ensures M.TIMESTAMP == Ascii("timestamp") && M.ID == Ascii("id") && M.SIG == Ascii("sig")
    ensures M.RESULT == Ascii("result") && M.ERROR == Ascii("error")
    ensures M.CODE == Ascii("code") && M.MESSAGE == Ascii("message") && M.VERSION == Ascii("2.0")
  {
  }

  lemma ErrorTexts()
    ensures R.PARSE_ERROR_TEXT == Ascii("Parse error") && R.PARSE_ERROR == -32700
    ensures R.INVALID_REQUEST_TEXT == Ascii("Invalid Request") && R.INVALID_REQUEST == -32600
    ensures R.METHOD_NOT_FOUND_TEXT == Ascii("Method not found") && R.METHOD_NOT_FOUND == -32601
    ensures R.INVALID_PARAMS_TEXT == Ascii("Invalid params") && R.INVALID_PARAMS == -32602
  {
  }

  lemma PatchMembers()
    ensures P.KEY_OP == Ascii("op") && P.KEY_PATH == Ascii("path")
    ensures P.KEY_VALUE == Ascii("value") && P.KEY_FROM == Ascii("from")
    ensures P.OP_ADD == Ascii("add") && P.OP_REMOVE == Ascii("remove") && P.OP_REPLACE == Ascii("replace")
    ensures P.OP_MOVE == Ascii("move") && P.OP_COPY == Ascii("copy") && P.OP_TEST == Ascii("test")
  {
  }
}
