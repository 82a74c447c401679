/** Shared result and error types of the assembler model. */
module Common {

  datatype Option<T> = None | Some(value: T)

  /** The exceptions the assembler's helpers and front end raise, one constructor per cause. */
  datatype Error =
    | TooLarge                             // a value needs more bits than its field has
    | NegativeValue                        // a 12-bit address was asked for a negative number
    | TooSmall                             // the 12-bit two's-complement increment carried into a 13th bit
    | NotBinary                            // ValueError from int(s, 2)
    | NotDecimal                           // ValueError from int(s)
    | NotInteger                           // TypeError from bin() applied to a float
    | InvalidInstruction(line: string)     // a source line the validator rejects
    | InvalidTag(tag: Option<string>)      // a branch whose tag is not in the tag map
    | UnknownMnemonic(mnemonic: string)    // lowering met a mnemonic of no known class
    | NoneNotIterable                      // TypeError from extending a list by None
    | MissingArgument                      // TypeError from a dataclass built without a required field
    | UnexpectedArgument                   // TypeError from a dataclass built with a keyword it has no field for

  datatype Result<T> = Ok(value: T) | Err(error: Error)
}
