/** Values shared by the store and its clients. */
module Documents {

  datatype Option<+T> = None | Some(value: T)

  // A decoded JSON value. Nested objects and arrays stay opaque.
  datatype Json = Null | Number(n: int) | Text(text: string) | Nested(id: int)

  // The record member that the data file reserves for the key of an entry.
  const KEY_FIELD: string := "_key"

  type Row = map<string, Json>

  // Values the store keeps: the reserved member does not occur at the top level.
  type Fields = row: Row | KEY_FIELD !in row

  type Table = map<string, Fields>
}
