/** The toast messages the client shows through `showMessage(text, type)`. */
module Messages {

  datatype Kind = Success | Error

  datatype Notice = Notice(text: string, kind: Kind)
}
