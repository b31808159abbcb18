/** The ways the application's operations can fail, and the wrappers that
    carry either a value or one of those failures. Every failure here is an
    exception the program raises and does not catch. */
module Failures {

  datatype Option<+T> = None | Some(value: T)

  datatype Error =
    /** load_data met an extension other than csv/xlsx and returned a bare
        empty frame, which the caller cannot unpack into four values */
    | UnrecognisedExtension(extension: string)
    /** a header that should carry "(unit)" has no '(' (IndexError) */
    | MissingUnit(header: string)
    /** the table has fewer than two channel columns, so columns[1] is out of range */
    | MissingSecondColumn
    /** a selected channel is not a column of the table being plotted (KeyError) */
    | MissingColumn(name: string)
    /** a channel at this position has no colour in the palette (IndexError) */
    | PaletteExhausted(position: nat)
    /** no channel at this position of the channel list (IndexError) */
    | NoSuchChannel(index: nat)

  datatype Result<+T> = Success(value: T) | Failure(error: Error)

  /** The outcome of an operation that changes state and returns nothing. */
  datatype Outcome = Pass | Fail(error: Error)
}
