/** The constants of src/constants/constants.ts that the core uses, and the
    ones it refers to but that file does not define. */
module Constants {
  /** `Constants.DB.BOOLEAN_TYPE`, `Constants.ERROR_MESSAGES.FIELD_DOES_NOT_EXIST`,
      `Constants.MYSQL_ERROR_CODES.ER_UNKNOWN` and `Constants.HTTP_STATUS_CODES`:
      referred to by the core but defined nowhere in it, so the model takes
      them as a parameter. */
  datatype Settings = Settings(
    booleanType: string,
    fieldDoesNotExistMessage: string,
    unknownErrorCode: string,
    httpStatusCodes: map<string, int>)

  /** The fixed text of `FIELD_DOES_NOT_EXIST` around its two placeholders. */
  const FieldMessageHead: string := "The field \""
  const FieldMessageMiddle: string := "\" does not exist on the \""
  const FieldMessageTail: string := "\" table."

  /** `Constants.ERRORS.FIELD_DOES_NOT_EXIST`: the field name goes in at
      `{0}`, the table name at `{1}`. */
  const FieldDoesNotExist: string := FieldMessageHead + "{0}" + FieldMessageMiddle + "{1}" + FieldMessageTail

}
