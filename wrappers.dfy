/** The optional value used for "may be absent" results and inputs. */
module Wrappers {

  datatype Option<+T> = None | Some(value: T)
}
