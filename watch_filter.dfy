/** The watch list filter of the bot (bot.py:139-142). */
module WatchFilter {
  import opened Text

  /**
    The watch list with every entry lowered, as the list comprehension at
    bot.py:142 builds it: entry by entry the same up to case, with no
    upper-case letter left.
   */
  function LowerAll(watched: seq<string>): (lowered: seq<string>)
    ensures |lowered| == |watched|
    ensures forall k :: 0 <= k < |watched| ==> EqualIgnoringCase(lowered[k], watched[k])
    ensures forall k, j :: 0 <= k < |lowered| && 0 <= j < |lowered[k]| ==> !IsAsciiUpper(lowered[k][j])
  {
    seq(|watched|, k requires 0 <= k < |watched| => Lower(watched[k]))
  }

  /**
    should_track: an empty watch list tracks every name; otherwise the name
    must equal some entry up to case, as a whole string.
   */
  function ShouldTrack(name: string, watched: seq<string>): (track: bool)
    ensures track <==> watched == [] || exists k :: 0 <= k < |watched| && EqualIgnoringCase(name, watched[k])
  {
    var lowered := LowerAll(watched);
    assert Lower(name) in lowered <==> exists k :: 0 <= k < |watched| && EqualIgnoringCase(name, watched[k]) by {
      forall k | 0 <= k < |watched| ensures lowered[k] == Lower(name) <==> EqualIgnoringCase(name, watched[k]) {
        LowerEqualIff(name, watched[k]);
      }
    }
    watched == [] || Lower(name) in lowered
  }

  /** A match is never a substring match: a tracked name has the length of some entry. */
  lemma TrackedNameHasEntryLength(name: string, watched: seq<string>)
    requires watched != [] && ShouldTrack(name, watched)
    ensures exists k :: 0 <= k < |watched| && |watched[k]| == |name|
  {
    var k :| 0 <= k < |watched| && EqualIgnoringCase(name, watched[k]);
    assert |watched[k]| == |name|;
  }

  /** Examples: an empty list tracks all; "Foo" matches "foo" but not "bar" nor "fo". */
  lemma ShouldTrackExamples()
    ensures ShouldTrack("Foo", [])
    ensures ShouldTrack("Foo", ["foo"])
    ensures !ShouldTrack("Foo", ["bar"])
    ensures !ShouldTrack("Foo", ["fo"])
  {
    var foo, bar, fo := ["foo"], ["bar"], ["fo"];
    assert EqualIgnoringCase("Foo", foo[0]) by {
      assert "Foo"[0] == 'F' && "Foo"[1] == 'o' && "Foo"[2] == 'o';
      assert foo[0][0] == 'f' && foo[0][1] == 'o' && foo[0][2] == 'o';
    }
    assert !EqualIgnoringCase("Foo", bar[0]) by {
      assert "Foo"[0] == 'F' && bar[0][0] == 'b';
      assert !SameIgnoringCase("Foo"[0], bar[0][0]);
    }
    assert !EqualIgnoringCase("Foo", fo[0]);
  }
}
