/** The tokens that the lexer hands to the parser; line and column only serve error messages. */
module Tokens {

  datatype CompareOp = Eq | Ne | Lt | Le | Gt | Ge

  datatype Token =
    | Keyword(word: string)
    | Ident(name: string)
    | Number(digits: string)
    | Text(text: string)
    | Operator(op: CompareOp)
    | Punct(mark: char)
    | Eof
}
