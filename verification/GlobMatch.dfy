/** The file name matcher of FindFirst/FindNext: `PatMatch`. Strings are C strings, without their terminator. */
module GlobMatch {

  /** `PatMatch`, case by case; the end of a sequence stands for the terminating NUL. */
  function PatMatch(pattern: string, s: string): bool
    decreases |pattern| + |s|
  {
    if pattern == "" then s == ""
    else if pattern[0] == '*' then
      PatMatch(pattern[1..], s) || (s != "" && PatMatch(pattern, s[1..]))
    else if pattern[0] == '?' then
      s != "" && PatMatch(pattern[1..], s[1..])
    else
      s != "" && pattern[0] == s[0] && PatMatch(pattern[1..], s[1..])
  }

  /** What one pattern character may stand for. */
  predicate Fits(c: char, part: string) {
    if c == '*' then true
    else if c == '?' then |part| == 1
    else part == [c]
  }

  function Concat(parts: seq<string>): string {
    if parts == [] then "" else parts[0] + Concat(parts[1..])
  }

  /** `parts` cuts `s` into one piece per pattern character, each fitting its character. */
  ghost predicate IsCut(pattern: string, s: string, parts: seq<string>) {
    && |parts| == |pattern|
    && Concat(parts) == s
    && forall i :: 0 <= i < |parts| ==> Fits(pattern[i], parts[i])
  }

  ghost predicate Matches(pattern: string, s: string) {
    exists parts :: IsCut(pattern, s, parts)
  }

  /** The matcher accepts only strings that have a cut. */
  lemma {:induction false} Sound(pattern: string, s: string) returns (parts: seq<string>)
    requires PatMatch(pattern, s)
    ensures IsCut(pattern, s, parts)
    decreases |pattern| + |s|
  {
    if pattern == "" {
      parts := [];
    } else if pattern[0] == '*' && PatMatch(pattern[1..], s) {
      var rest := Sound(pattern[1..], s);
      parts := [""] + rest;
      assert parts[1..] == rest && "" + s == s;
    } else if pattern[0] == '*' {
      var rest := Sound(pattern, s[1..]);
      parts := [[s[0]] + rest[0]] + rest[1..];
      assert parts[1..] == rest[1..];
      assert s == [s[0]] + (rest[0] + Concat(rest[1..]));
      assert Concat(parts) == s;
    } else {
      var rest := Sound(pattern[1..], s[1..]);
      parts := [[s[0]]] + rest;
      assert parts[1..] == rest;
      assert s == [s[0]] + s[1..];
    }
  }

  /** The matcher accepts every string that has a cut. */
  lemma {:induction false} Complete(pattern: string, s: string, parts: seq<string>)
    requires IsCut(pattern, s, parts)
    ensures PatMatch(pattern, s)
    decreases |pattern| + |s|
  {
    if pattern != "" {
      var head, rest := parts[0], parts[1..];
      assert Fits(pattern[0], head);
      if pattern[0] == '*' && head != "" {
        var shorter := [head[1..]] + rest;
        assert s[0] == head[0] && s[1..] == head[1..] + Concat(rest);
        assert shorter[1..] == rest;
        Complete(pattern, s[1..], shorter);
      } else {
        assert IsCut(pattern[1..], Concat(rest), rest);
        Complete(pattern[1..], Concat(rest), rest);
        assert s[|head|..] == Concat(rest);
        if pattern[0] == '*' {
          assert s == Concat(rest);
        }
      }
    }
  }

  /** `PatMatch` decides the glob relation, for every pattern and string. */
  lemma PatMatchDecides(pattern: string, s: string)
    ensures PatMatch(pattern, s) <==> Matches(pattern, s)
  {
    if PatMatch(pattern, s) {
      var parts := Sound(pattern, s);
    }
    if Matches(pattern, s) {
      var parts :| IsCut(pattern, s, parts);
      Complete(pattern, s, parts);
    }
  }
}
