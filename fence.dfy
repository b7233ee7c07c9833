/**
 * The cleaning of the model's reply before it is parsed as JSON
 * (interview_bot.py:76): remove every "```json", then every remaining
 * "```", then strip surrounding whitespace.
 */
module FenceCleaning {
  import opened Strings

  const Tick: char := '`'
  /** The Markdown code-fence marker. */
  const Fence: string := "```"
  /** The opening fence the model writes before a JSON block. */
  const JsonFence: string := "```json"
  /** The word an opening JSON fence leaves behind when "```" is removed first. */
  const JsonTag: string := "json"

  /** A string of `n` backticks. */
  function Ticks(n: nat): (r: string)
    ensures |r| == n && forall k | 0 <= k < n :: r[k] == Tick
  {
    seq(n, _ => Tick)
  }

  /**
   * The cleaned reply. Whatever the reply, nothing left in it is a fence and
   * it neither begins nor ends with whitespace.
   */
  function Clean(text: string): (r: string)
    ensures !Occurs(r, Fence)
    ensures Trimmed(r)
  {
    var noJson := Replace(text, JsonFence, "");
    var noFence := Replace(noJson, Fence, "");
    NoFenceAfterRemoval(noJson);
    StripKeepsAbsence(noFence, Fence);
    Strip(noFence)
  }

  /** Where a fence starts, character by character. */
  lemma FenceChars(s: string)
    ensures StartsWith(s, Fence) <==> |s| >= 3 && s[0] == Tick && s[1] == Tick && s[2] == Tick
  {
    StartsWithChars(s, Fence);
  }

  /** Where an opening JSON fence starts, a fence starts. */
  lemma JsonFenceChars(s: string)
    ensures StartsWith(s, JsonFence) ==> |s| >= 7 && StartsWith(s, Fence)
  {
    StartsWithChars(s, JsonFence);
    FenceChars(s);
  }

  /** Removing a fence from a string that does not start with one keeps its head. */
  lemma RemoveKeepsHead(s: string)
    requires s != [] && !StartsWith(s, Fence)
    ensures Replace(s, Fence, "") == [s[0]] + Replace(s[1..], Fence, "")
  {
  }

  /**
   * When `s` does not start with a fence, removing the fences from its tail
   * leaves a string that does not start with two backticks, so no fence
   * can form where the head of `s` is joined back on.
   */
  lemma TailAfterRemoval(s: string)
    requires s != [] && !StartsWith(s, Fence) && s[0] == Tick
    ensures !StartsWith(Replace(s[1..], Fence, ""), [Tick, Tick])
  {
    var t := s[1..];
    var r := Replace(t, Fence, "");
    FenceChars(s);
    StartsWithChars(r, [Tick, Tick]);
    if t != [] {
      FenceChars(t);
      RemoveKeepsHead(t);
      assert r[0] == t[0];
      assert t[0] != Tick ==> !StartsWith(r, [Tick, Tick]);
      if t[0] == Tick {
        var u := t[1..];
        if u != [] {
          FenceChars(u);
          RemoveKeepsHead(u);
          assert r[1] == u[0];
          assert u[0] == s[2];
          assert s[2] != Tick;
          assert !StartsWith(r, [Tick, Tick]);
        } else {
          assert r == [Tick];
          assert !StartsWith(r, [Tick, Tick]);
        }
      }
    }
  }

  /**
   * Python removes fences leftmost first and without overlap; that can never
   * join two leftover backtick runs into a new fence, so none remains.
   */
  lemma {:induction false} NoFenceAfterRemoval(s: string)
    ensures !Occurs(Replace(s, Fence, ""), Fence)
    decreases |s|
  {
    if s == [] {
    } else if StartsWith(s, Fence) {
      assert Replace(s, Fence, "") == Replace(s[3..], Fence, "");
      NoFenceAfterRemoval(s[3..]);
    } else {
      var tail := Replace(s[1..], Fence, "");
      NoFenceAfterRemoval(s[1..]);
      RemoveKeepsHead(s);
      OccursUncons([s[0]] + tail, Fence);
      assert ([s[0]] + tail)[1..] == tail;
      if StartsWith([s[0]] + tail, Fence) {
        TailAfterRemoval(s);
        assert false;
      }
    }
  }

  /** A run of `n` backticks is left with `n % 3` of them. */
  lemma {:induction false} TickRunShrinks(n: nat)
    ensures Replace(Ticks(n), Fence, "") == Ticks(n % 3)
  {
    if n >= 3 {
      assert StartsWith(Ticks(n), Fence);
      assert Ticks(n)[3..] == Ticks(n - 3);
      TickRunShrinks(n - 3);
    } else {
      ReplaceAbsent(Ticks(n), Fence, "");
    }
  }

  /** A string free of fences is free of opening JSON fences. */
  lemma NoJsonFence(s: string)
    requires !Occurs(s, Fence)
    ensures !Occurs(s, JsonFence)
  {
    assert JsonFence == Fence + JsonTag;
    if Occurs(s, JsonFence) {
      OccursPrefix(s, Fence, JsonTag);
    }
  }

  /** Text with no fence and nothing to trim passes through unchanged. */
  lemma CleanFixedPoint(s: string)
    requires !Occurs(s, Fence) && Trimmed(s)
    ensures Clean(s) == s
  {
    NoJsonFence(s);
    ReplaceAbsent(s, JsonFence, "");
    ReplaceAbsent(s, Fence, "");
    StripTrimmed(s);
  }

  /** Cleaning twice is cleaning once. */
  lemma CleanIdempotent(s: string)
    ensures Clean(Clean(s)) == Clean(s)
  {
    CleanFixedPoint(Clean(s));
  }

  /**
   * Removing the fences from `body + "```"` gives back `body` when `body`
   * holds no fence, even when `body` ends in one or two backticks.
   */
  lemma {:induction false} RemoveClosingFence(body: string)
    requires !Occurs(body, Fence)
    ensures Replace(body + Fence, Fence, "") == body
    decreases |body|
  {
    var x := body + Fence;
    if body == [] {
      assert x == Fence;
      assert Replace(x, Fence, "") == Replace([], Fence, "");
    } else if StartsWith(x, Fence) {
      // body is a prefix of a fence yet not itself a fence: one or two backticks.
      OccursUncons(body, Fence);
      FenceChars(body);
      FenceChars(x);
      assert |body| < 3;
      forall k | 0 <= k < |body|
        ensures body[k] == Tick
      {
        assert body[k] == x[..3][k];
      }
      assert body == Ticks(|body|);
      assert x == Ticks(|body| + 3);
      TickRunShrinks(|body| + 3);
    } else {
      OccursUncons(body, Fence);
      RemoveClosingFence(body[1..]);
      assert x[1..] == body[1..] + Fence;
      RemoveKeepsHead(x);
    }
  }

  /** `body + "```"` holds no opening JSON fence when `body` holds no fence. */
  lemma NoJsonFenceBeforeClosing(body: string)
    requires !Occurs(body, Fence)
    ensures !Occurs(body + Fence, JsonFence)
  {
    var x := body + Fence;
    forall i | 0 <= i <= |x|
      ensures !StartsWith(x[i..], JsonFence)
    {
      JsonFenceChars(x[i..]);
      FenceChars(x[i..]);
      if i + 3 <= |body| {
        FenceChars(body[i..]);
      }
    }
  }

  /**
   * A JSON block fenced the way the model writes it, "```json" + body +
   * "```", cleans to the stripped body when the body holds no fence.
   */
  lemma CleanUnwrapsFencedBlock(body: string)
    requires !Occurs(body, Fence)
    ensures Clean(JsonFence + body + Fence) == Strip(body)
  {
    var x := JsonFence + body + Fence;
    var y := body + Fence;
    assert x == JsonFence + y;
    ReplaceLeading(JsonFence, y, "");
    assert Replace(x, JsonFence, "") == Replace(y, JsonFence, "");
    NoJsonFenceBeforeClosing(body);
    ReplaceAbsent(y, JsonFence, "");
    assert Replace(x, JsonFence, "") == y;
    RemoveClosingFence(body);
    assert Replace(Replace(x, JsonFence, ""), Fence, "") == body;
  }

  /** Prefixing characters other than a backtick cannot create a fence. */
  lemma {:induction false} NoFenceAfterPlainPrefix(a: string, b: string)
    requires forall k | 0 <= k < |a| :: a[k] != Tick
    requires !Occurs(b, Fence)
    ensures !Occurs(a + b, Fence)
    decreases |a|
  {
    if a != [] {
      assert forall k | 0 <= k < |a| - 1 :: a[1..][k] == a[k + 1];
      NoFenceAfterPlainPrefix(a[1..], b);
      OccursUncons(a + b, Fence);
      assert (a + b)[1..] == a[1..] + b;
      assert (a + b)[0] == a[0];
      FenceChars(a + b);
      assert !StartsWith(a + b, Fence);
      assert !Occurs((a + b)[1..], Fence);
    } else {
      assert a + b == b;
    }
  }

  /**
   * The order of the two replacements matters: removing "```" first would
   * break the opening fence into a stray "json" that stays in the text.
   */
  lemma SwappedOrderKeepsJsonTag(body: string)
    requires !Occurs(body, Fence)
    ensures Strip(Replace(Replace(JsonFence + body + Fence, Fence, ""), JsonFence, "")) == Strip(JsonTag + body)
    ensures StartsWith(Strip(JsonTag + body), JsonTag)
  {
    var x := JsonFence + body + Fence;
    var tagged := JsonTag + body;
    assert x == Fence + (tagged + Fence);
    ReplaceLeading(Fence, tagged + Fence, "");
    assert Replace(x, Fence, "") == Replace(tagged + Fence, Fence, "");
    NoFenceAfterPlainPrefix(JsonTag, body);
    RemoveClosingFence(tagged);
    assert Replace(x, Fence, "") == tagged;
    NoJsonFence(tagged);
    ReplaceAbsent(tagged, JsonFence, "");
    assert Trimmed(JsonTag);
    StripKeepsLeadingWord(JsonTag, body);
    assert Replace(Replace(x, Fence, ""), JsonFence, "") == tagged;
  }

  /**
   * For a fenced JSON body free of fences and of the word "json", the
   * cleaned text holds no "json" while the swapped order leaves the text
   * starting with one.
   */
  lemma OrderMatters(body: string)
    requires !Occurs(body, Fence) && !Occurs(body, JsonTag)
    ensures !Occurs(Clean(JsonFence + body + Fence), JsonTag)
    ensures StartsWith(Strip(Replace(Replace(JsonFence + body + Fence, Fence, ""), JsonFence, "")), JsonTag)
  {
    CleanUnwrapsFencedBlock(body);
    StripKeepsAbsence(body, JsonTag);
    SwappedOrderKeepsJsonTag(body);
  }
}
