/**
 * The crate's error type (src/error.rs). The AWS SDK wrappers compare equal to
 * each other whatever they hold, so they are modelled without a payload; the
 * grammar's error is kept abstract as a position and a message.
 */
module Errors {

  /** What the generated grammar reports when the input does not match it. */
  datatype GrammarError = GrammarError(position: nat, message: string)

  datatype Error =
    | ParsingError(grammar: GrammarError)
    | AwsSmSdkError
    | AwsSmApiError
    | AwsPsSdkError
    | PlaceholderMissing(name: string)
    | ParameterNotFound(id: string)
}
