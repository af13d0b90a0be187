/** What begins and ends have in common with the other events of a trace. */
module TraceEvents {

  datatype Phase = Begin | End | Metadata
}
