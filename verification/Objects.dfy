/** Values shared by the models: the parts of SQObjectPtr that the modelled code looks at. */
module Objects {

  datatype Option<+T> = None | Some(value: T)

  /** A script value.  Strings are interned, so two strings are the same object
      exactly when their contents are equal; a float is its bit pattern, because the
      hash table compares raw bits; every other reference is an address. */
  datatype Obj =
    | Null
    | Bool(b: bool)
    | Int(i: int)
    | Float(bits: int)
    | Str(s: string)
    | Ref(address: nat)
}
