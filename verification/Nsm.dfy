/** What the codecs of libnsm share (libnsm/base.h) */
module Nsm {

  /** nsm_sw_codes; NULL arguments are not modelled */
  datatype Rc = Success | ErrorData | ErrorLength

  /** Completion codes */
  const NSM_SUCCESS := 0
  const NSM_ACCEPTED := 0x7d

  const INSTANCE_MAX := 31
}
