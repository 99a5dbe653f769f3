/**
 * Extraction of the short code from the request path: every `/` is deleted
 * from `rawPath` and the remaining characters are kept in their order, as
 * `String.replace("/", "")` does.
 */
module ShortCode {

  const Slash: char := '/'

  /** `s` with every slash removed, scanning from the left. */
  function StripSlashes(s: string): (r: string)
    ensures Slash !in r
    ensures |r| <= |s|
  {
    if s == [] then []
    else (if s[0] == Slash then [] else [s[0]]) + StripSlashes(s[1..])
  }

  /** Stripping distributes over concatenation: the kept characters stay in order. */
  lemma {:induction false} StripSlashesAppend(a: string, b: string)
    ensures StripSlashes(a + b) == StripSlashes(a) + StripSlashes(b)
  {
    if a != [] {
      assert (a + b)[1..] == a[1..] + b;
      StripSlashesAppend(a[1..], b);
    } else {
      assert a + b == b;
    }
  }

  /** A single character is dropped exactly when it is a slash. */
  lemma StripSlashesChar(c: char)
    ensures StripSlashes([c]) == if c == Slash then [] else [c]
  {
  }

  /** Every character other than a slash occurs as often in the code as in the path. */
  lemma {:induction false} StripSlashesCounts(s: string)
    ensures multiset(StripSlashes(s)) == multiset(s)[Slash := 0]
  {
    if s != [] {
      StripSlashesCounts(s[1..]);
      assert s == [s[0]] + s[1..];
      assert multiset(s) == multiset([s[0]]) + multiset(s[1..]);
    }
  }

  /** A path is left unchanged exactly when it holds no slash. */
  lemma {:induction false} StripSlashesFixpoint(s: string)
    ensures StripSlashes(s) == s <==> Slash !in s
  {
    if s != [] && Slash !in s {
      assert Slash !in s[1..];
      StripSlashesFixpoint(s[1..]);
    }
  }

  /** Stripping an already extracted code changes nothing. */
  lemma {:induction false} StripSlashesIdempotent(s: string)
    ensures StripSlashes(StripSlashes(s)) == StripSlashes(s)
  {
    StripSlashesFixpoint(StripSlashes(s));
  }

  /** The code is empty exactly when the path is empty or made of slashes only. */
  lemma {:induction false} StripSlashesEmpty(s: string)
    ensures StripSlashes(s) == [] <==> forall i :: 0 <= i < |s| ==> s[i] == Slash
  {
    if s != [] {
      StripSlashesEmpty(s[1..]);
      if forall i :: 0 <= i < |s| ==> s[i] == Slash {
        assert forall i :: 0 <= i < |s[1..]| ==> s[1..][i] == s[i + 1];
      } else {
        var k :| 0 <= k < |s| && s[k] != Slash;
        if k > 0 {
          assert s[1..][k - 1] == s[k];
        }
      }
    }
  }

  /** A single-segment path loses only its leading slash. */
  lemma {:induction false} LeadingSlashStripped(segment: string)
    requires Slash !in segment
    ensures StripSlashes([Slash] + segment) == segment
  {
    assert ([Slash] + segment)[1..] == segment;
    StripSlashesFixpoint(segment);
  }

  // The example lemmas take the path as a parameter pinned by `requires`:
  // string literals as arguments make the verifier unfold `StripSlashes`
  // past its resource limit.

  /** Example: `/abc123` gives `abc123`. */
  lemma SingleSegmentExample(path: string)
    requires path == "/abc123"
    ensures StripSlashes(path) == "abc123"
  {
    assert path == [Slash] + "abc123";
    LeadingSlashStripped("abc123");
  }

  /** Example: the segments of `/foo/bar` are joined into `foobar`. */
  lemma MultiSegmentExample(path: string)
    requires path == "/foo/bar"
    ensures StripSlashes(path) == "foobar"
  {
    assert path == ([Slash] + "foo") + ([Slash] + "bar");
    StripSlashesAppend([Slash] + "foo", [Slash] + "bar");
    LeadingSlashStripped("foo");
    LeadingSlashStripped("bar");
  }

  /** Empty and slash-only paths give the empty code. */
  lemma SlashOnlyExamples(path: string)
    requires path == "" || path == "/" || path == "//"
    ensures StripSlashes(path) == ""
  {
  }
}
