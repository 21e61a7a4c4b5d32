/** The constexpr basename helpers that the LOG macro applies to __FILE__.
    A `const char *` is modelled by a character array `cs` and a position
    `p` in it; the string it points to runs up to the first NUL at or
    after p. */
module Utils {

  /** Some NUL terminates the string that starts at p. */
  ghost predicate TerminatedFrom(cs: seq<char>, p: nat)
  {
    exists i :: p <= i < |cs| && cs[i] == '\0'
  }

  /** `endChars`: steps forward to the terminating NUL, so the result is the
      position of the first NUL at or after p (p plus the string length). */
  function EndChars(cs: seq<char>, p: nat): (r: nat)
    requires TerminatedFrom(cs, p)
    decreases |cs| - p
    ensures p <= r < |cs| && cs[r] == '\0'
    ensures forall i :: p <= i < r ==> cs[i] != '\0'
  {
    if cs[p] == '\0' then p else EndChars(cs, p + 1)
  }

  /** `rfindSlash`: steps backward from p to the nearest '/' and returns the
      position just after it. The source walks off the array when there is
      no '/' at or before p, so one is required. */
  function RFindSlash(cs: seq<char>, p: nat): (r: nat)
    requires p < |cs|
    requires exists i :: 0 <= i <= p && cs[i] == '/'
    decreases p
    ensures 0 < r <= p + 1 && cs[r - 1] == '/'
    ensures forall i :: r <= i <= p ==> cs[i] != '/'
  {
    if cs[p] == '/' then p + 1 else RFindSlash(cs, p - 1)
  }

  /** `hasSlash`: a '/' occurs in the string that starts at p. */
  function HasSlash(cs: seq<char>, p: nat): (b: bool)
    requires TerminatedFrom(cs, p)
    decreases |cs| - p
    ensures b <==> exists i :: p <= i < EndChars(cs, p) && cs[i] == '/'
  {
    if cs[p] == '/' then true
    else if cs[p] == '\0' then false
    else HasSlash(cs, p + 1)
  }

  /** `fileName`: the position of the base name of the path at the start of
      cs — just after its last '/', or the whole path when it has none. */
  function FileName(cs: seq<char>): (r: nat)
    requires TerminatedFrom(cs, 0)
    ensures r <= EndChars(cs, 0)
    ensures forall i :: r <= i < EndChars(cs, 0) ==> cs[i] != '/'
    ensures HasSlash(cs, 0) ==> 0 < r && cs[r - 1] == '/'
    ensures !HasSlash(cs, 0) ==> r == 0
  {
    if HasSlash(cs, 0) then RFindSlash(cs, EndChars(cs, 0)) else 0
  }
}
