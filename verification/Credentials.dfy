/** Device names, tokens and WireGuard keys: what is accepted, and as what. */
module Credentials {
  import opened Wrappers
  import opened Text

  /** What lies outside the program: Unicode's tables for lower case and for
      letters and digits, and the hash tokens are stored under. */
  datatype World = World(lowercase: string -> string, alphanumeric: char -> bool, hash: string -> string)

  /** The three facts about it that anything here rests on. */
  ghost predicate Sound(w: World) {
    && (forall s :: w.lowercase(w.lowercase(s)) == w.lowercase(s))
    && (forall c :: w.alphanumeric(c) ==> !IsWhitespace(c))
    && (forall t :: IsHex(w.hash(t)))
  }

  const MAX_NAME: nat := 32
  const RESERVED: string := "server"

  datatype NameError = Empty | TooLong(len: nat) | BadNameChar(c: char) | BadEdge(c: char) | Reserved

  predicate IsAllowed(w: World, c: char) {
    w.alphanumeric(c) || c == '-' || c == '_'
  }

  function FirstRefused(w: World, name: string): (r: Option<char>)
    ensures r.None? <==> forall k :: 0 <= k < |name| ==> IsAllowed(w, name[k])
  {
    if name == [] then None
    else if !IsAllowed(w, name[0]) then Some(name[0])
    else FirstRefused(w, name[1..])
  }

  /** `DeviceName::parse`. Lower-casing is taken to keep a name non-empty, as
      the source's `expect` does; a table that does not is refused as empty. */
  function ParseName(w: World, input: string): Result<string, NameError> {
    var trimmed := Trim(input);
    if trimmed == [] then Err(Empty)
    else
      var name := w.lowercase(trimmed);
      if |name| > MAX_NAME then Err(TooLong(|name|))
      else if FirstRefused(w, name).Some? then Err(BadNameChar(FirstRefused(w, name).value))
      else if name == [] then Err(Empty)
      else if !w.alphanumeric(name[0]) then Err(BadEdge(name[0]))
      else if !w.alphanumeric(name[|name| - 1]) then Err(BadEdge(name[|name| - 1]))
      else if name == RESERVED then Err(Reserved)
      else Ok(name)
  }

  /** A name as the hub holds it. */
  ghost predicate IsName(w: World, name: string) {
    && 0 < |name| <= MAX_NAME
    && w.lowercase(name) == name
    && (forall k :: 0 <= k < |name| ==> IsAllowed(w, name[k]))
    && w.alphanumeric(name[0]) && w.alphanumeric(name[|name| - 1])
    && name != RESERVED
  }

  /** Canonical names are what reading gives, and what it leaves alone. */
  lemma NamesExactly(w: World, input: string)
    requires Sound(w)
    ensures ParseName(w, input).Ok? ==> IsName(w, ParseName(w, input).value)
    ensures IsName(w, input) <==> ParseName(w, input) == Ok(input)
  {
    var trimmed := Trim(input);
    assert w.lowercase(w.lowercase(trimmed)) == w.lowercase(trimmed);
    if IsName(w, input) {
      assert trimmed == input;
    }
  }

  // -------------------------------------------------------------- tokens

  const HEX_LEN: nat := 64

  datatype TokenError = WrongTokenLength(len: nat) | BadTokenChar(c: char)

  predicate IsHexChar(c: char) {
    '0' <= c <= '9' || 'a' <= c <= 'f'
  }

  predicate IsHex(s: string) {
    |s| == HEX_LEN && forall k :: 0 <= k < |s| ==> IsHexChar(s[k])
  }

  function FirstNotHex(s: string): (r: Option<char>)
    ensures r.None? <==> forall k :: 0 <= k < |s| ==> IsHexChar(s[k])
  {
    if s == [] then None
    else if !IsHexChar(s[0]) then Some(s[0])
    else FirstNotHex(s[1..])
  }

  /** A token or a hash: 64 lower-case hexadecimal characters, as they are. */
  function CheckHex(s: string): (r: Result<string, TokenError>)
    ensures r.Ok? <==> IsHex(s)
    ensures r.Ok? ==> r.value == s
  {
    if |s| != HEX_LEN then Err(WrongTokenLength(|s|))
    else
      match FirstNotHex(s)
      case Some(c) => Err(BadTokenChar(c))
      case None => Ok(s)
  }

  // ---------------------------------------------------------------- keys

  /** A WireGuard key: 44 base64 characters, the last a pad. */
  predicate IsKey(key: string) {
    && |key| == 44
    && key[43] == '='
    && forall k :: 0 <= k < 43 ==> IsAsciiAlnum(key[k]) || key[k] == '+' || key[k] == '/'
  }

  /** `wg::parse_key`: a key, whatever space stands around it. */
  function ParseKey(output: string): (r: Option<string>)
    ensures r.Some? <==> IsKey(Trim(output))
    ensures r.Some? ==> r.value == Trim(output)
    ensures IsKey(output) ==> r == Some(output)
  {
    var key := Trim(output);
    assert IsKey(output) ==> !IsWhitespace(output[0]) && !IsWhitespace(output[43]);
    if IsKey(key) then Some(key) else None
  }
}
