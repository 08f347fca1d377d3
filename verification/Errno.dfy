/** Error codes that drive the completion protocols. */
module Errno {
  const ECANCELED := 125
  const ETOOMANYFAILS := 1005
  const EPCHANFINISH := 1006
  const EBACKUPREQUEST := 1007
  const ERPCTIMEDOUT := 1008
  const EOVERCROWDED := 1011
  const ERESPONSE := 2002
}
