/** The ends of byte streams. */
module StreamEnds {
  import opened Splitting

  const TAG_LEN := |CTF_TAG|

  predicate EndsWith(s: seq<byte>, t: seq<byte>) {
    |t| <= |s| && s[|s| - |t|..] == t
  }
}
