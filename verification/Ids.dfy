// Names shared by the model of the database, the sync protocol and the
// authentication service.
module Ids {

  // A UUID, as the 128-bit number it is.
  type Uuid = nat

  // '00000000-0000-0000-0000-000000000000'
  const ZERO_UUID: Uuid := 0

  // The columns of a row that the model does not look into.
  type Columns = map<string, string>

  datatype Option<+T> = None | Some(value: T)
}
