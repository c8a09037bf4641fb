/** The headend guard: whether a headend-table entry asks for H.Encaps. */
module Headend {
  import opened Bytes
  import opened Wrappers
  import opened Entries

  /** `headend_should_encaps`, with the lookup result as an option (a null
      entry is `None`) and the value of `SRV6_HEADEND_BEHAVIOR_H_ENCAPS`,
      which the program does not define here, as a parameter. Only a present
      entry in H.Encaps mode is encapsulated. */
  function HeadendShouldEncaps(entry: Option<HeadendEntry>, hEncapsMode: Byte): (b: bool)
    ensures entry.None? ==> !b
    ensures entry.Some? ==> (b <==> entry.value.mode == hEncapsMode)
  {
    match entry
    case None => false
    case Some(e) => e.mode == hEncapsMode
  }

  /** The guard reads the mode and nothing else: two entries with the same
      mode get the same answer whatever their segments and addresses. */
  lemma GuardDependsOnlyOnMode(e1: HeadendEntry, e2: HeadendEntry, hEncapsMode: Byte)
    requires e1.mode == e2.mode
    ensures HeadendShouldEncaps(Some(e1), hEncapsMode) == HeadendShouldEncaps(Some(e2), hEncapsMode)
  {
  }
}
