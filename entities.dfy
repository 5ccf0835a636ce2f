/** The record that the agents pass between them: a `{"type": ..., "value": ...}`
    dictionary, with `type` renamed `kind` because `type` is a Dafny keyword. */
module Entities {

  datatype Entity = Entity(kind: string, value: string)
}
