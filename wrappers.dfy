/** The optional-value wrapper used for values the source may lack: a missing
    `<head>` or `<body>`, a gateway reply that is not a JSON list. */
module Wrappers {

  datatype Option<+T> = None | Some(value: T)
}
