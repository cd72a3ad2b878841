/** The preview text of `components/PostCard.tsx`: the content with every `#`, `*` and `` ` `` deleted. */
module PostCard {
  import opened JsString

  /** The characters of `/[#*`]/`. */
  predicate IsStripped(c: char) {
    c == '#' || c == '*' || c == '`'
  }

  /** `content.replace(/[#*`]/g, '')`. */
  function StripPreview(content: string): (r: string)
    ensures |r| <= |content|
    ensures forall k :: 0 <= k < |r| ==> !IsStripped(r[k])
  {
    if content == [] then []
    else (if IsStripped(content[0]) then [] else [content[0]]) + StripPreview(content[1..])
  }

  /** Stripping works piece by piece, so every kept character keeps its place in the order. */
  lemma {:induction false} StripAppend(a: string, b: string)
    ensures StripPreview(a + b) == StripPreview(a) + StripPreview(b)
  {
    if a == [] {
      assert a + b == b;
    } else {
      assert (a + b)[0] == a[0];
      assert (a + b)[1..] == a[1..] + b;
      StripAppend(a[1..], b);
    }
  }

  /** One character: deleted exactly when it is `#`, `*` or `` ` ``. */
  lemma StripOne(c: char)
    ensures StripPreview([c]) == if IsStripped(c) then [] else [c]
  {
    assert [c][1..] == [];
  }

  /** Content without those three characters is returned unchanged. */
  lemma {:induction false} StripNothing(content: string)
    requires forall k :: 0 <= k < |content| ==> !IsStripped(content[k])
    ensures StripPreview(content) == content
  {
    if content != [] {
      StripNothing(content[1..]);
    }
  }

  /** Stripping twice is stripping once. */
  lemma StripIdempotent(content: string)
    ensures StripPreview(StripPreview(content)) == StripPreview(content)
  {
    StripNothing(StripPreview(content));
  }

  /** The preview is shorter by the number of `#`, `*` and `` ` `` characters. */
  lemma {:induction false} StripLength(content: string)
    ensures |StripPreview(content)| == |content| - Count(content, '#') - Count(content, '*') - Count(content, '`')
  {
    if content != [] {
      StripLength(content[1..]);
    }
  }
}
