/** The transient notification a screen shows: only its text is modelled. */
module Toasts {

  datatype Toast = Toast(title: string, description: string)
}
