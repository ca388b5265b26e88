/** The kinds of the tables in an image (include/image.h:33-49). */
module ImageKinds {
  const ITEM_STRING: int := 1
  const ITEM_TYPE: int := 2
  const ITEM_TYPELIST: int := 3
  const ITEM_PROTO: int := 4
  const ITEM_CONST: int := 5
  const ITEM_CODE: int := 9
  const ITEM_MAX: int := 16

  /** The kinds whose items are appended with unique set; the other kinds never are. */
  predicate Unique(kind: int) {
    ITEM_STRING <= kind <= ITEM_CONST
  }
}
