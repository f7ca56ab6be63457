/**
 * The plain toggle set behind the success-rate chart and the main chart:
 * clicking an institution adds it to the active set if it is absent and
 * removes it if it is present.
 */
module ToggleSets {
  /** `s` with the membership of `key` flipped. */
  function Flip(s: set<string>, key: string): set<string> {
    if key in s then s - {key} else s + {key}
  }

  /** A toggle changes the membership of the toggled key and of no other key. */
  lemma FlipOnlyKey(s: set<string>, key: string)
    ensures key in Flip(s, key) <==> key !in s
    ensures forall k :: k != key ==> (k in Flip(s, key) <==> k in s)
  {
  }

  /** Toggling the same key twice restores the set. */
  lemma FlipTwice(s: set<string>, key: string)
    ensures Flip(Flip(s, key), key) == s
  {
  }
}
