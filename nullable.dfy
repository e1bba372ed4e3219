/** A value that may be absent, standing for a C# reference that may be null. */
module Nullables {
  datatype Nullable<+T> = Null | Ref(target: T)
}
