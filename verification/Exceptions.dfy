/** Exceptions as far as the node tells them apart: where plugins are initialised only boost's are caught. */
module Exceptions {
  datatype Exception = BoostException | OtherException
}
