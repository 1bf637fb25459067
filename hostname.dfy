/**
 * Syntax check for a user-supplied server name: 1 to 255 characters, each an ASCII
 * letter, a digit, '.' or '-'. A C string is modelled by its characters before the
 * terminating NUL; the null pointer is `None`.
 */
module Hostname {
  import opened Wrappers

  const MaxHostnameLen: nat := 255

  predicate IsHostnameChar(c: char)
  {
    ('a' <= c <= 'z') || ('A' <= c <= 'Z') || ('0' <= c <= '9') || c == '.' || c == '-'
  }

  /** The character scan: false at the first character outside the whitelist. */
  function ScanChars(s: string): (ok: bool)
    ensures ok <==> forall i :: 0 <= i < |s| ==> IsHostnameChar(s[i])
  {
    if s == [] then true
    else if !IsHostnameChar(s[0]) then false
    else
      assert forall i :: 1 <= i < |s| ==> s[i] == s[1..][i - 1];
      ScanChars(s[1..])
  }

  /** validate_hostname: null, empty and over-long names are refused before the scan. */
  function ValidateHostname(hostname: Option<string>): (ok: bool)
    ensures ok <==> hostname.Some? && 1 <= |hostname.value| <= MaxHostnameLen
                    && forall i :: 0 <= i < |hostname.value| ==> IsHostnameChar(hostname.value[i])
  {
    if hostname.None? || |hostname.value| == 0 || |hostname.value| > MaxHostnameLen then false
    else ScanChars(hostname.value)
  }

  /** A name containing '/' is refused wherever the '/' appears. */
  lemma SlashRefused(s: string, k: nat)
    requires k < |s| && s[k] == '/'
    ensures !ValidateHostname(Some(s))
  {
  }
}
