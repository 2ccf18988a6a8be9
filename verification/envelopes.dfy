/**
 * The message envelope the routines pass along: an opaque payload and the
 * provenance trail of components it went through. Its own methods
 * (`record_entry`, `record_exit`, `is_empty`) are uninterpreted here.
 */
module Envelopes {

  /** One provenance entry: a component the message passed and when. */
  datatype Hop = Hop(component: string, timestamp: int)

  datatype Message<P> = Message(payload: P, history: seq<Hop>)
}
