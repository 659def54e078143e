/** Dotted data paths: the list of keys above a position, rendered with `implode('.', …)`. */
module Paths {
  import opened Types

  /** `implode('.', path)`. */
  function Join(path: seq<Key>): (s: string)
    ensures path == [] ==> s == ""
    ensures |path| == 1 ==> s == path[0]
  {
    if |path| == 0 then ""
    else if |path| == 1 then path[0]
    else path[0] + "." + Join(path[1..])
  }

  /** Appending a key to a non-empty path appends a dot and the key to its rendering. */
  lemma {:induction false} JoinSnoc(path: seq<Key>, key: Key)
    requires path != []
    ensures Join(path + [key]) == Join(path) + "." + key
    decreases |path|
  {
    if |path| == 1 {
      assert path + [key] == [path[0], key];
      assert (path + [key])[1..] == [key];
    } else {
      assert (path + [key])[1..] == path[1..] + [key];
      JoinSnoc(path[1..], key);
    }
  }

  /** Rendering is not injective: a key that itself contains a dot renders like two
      nested keys, so exceptions and restrictions cannot tell the two apart. */
  lemma JoinConflatesDottedKeys()
    ensures Join(["a.b"]) == Join(["a", "b"])
  {
    assert Join(["a", "b"]) == "a" + "." + Join(["b"]);
  }

  /** One step of the path bookkeeping at the head of each iteration of the data loop:
      cut the path back to `lvl` keys when it is longer, then push the current key. */
  function StepPath(path: seq<Key>, lvl: nat, key: Key): (next: seq<Key>)
    ensures |next| == (if |path| > lvl then lvl else |path|) + 1
    ensures next[|next| - 1] == key
    ensures lvl <= |path| ==> next == path[..lvl] + [key]
  {
    (if |path| > lvl then path[..lvl] else path) + [key]
  }

  /** Whatever the previous iteration left in `path`, as long as it starts with the
      `lvl` keys the loop was entered with, the step yields exactly those keys followed
      by the current key: an earlier sibling's deeper keys never leak. */
  lemma StepPathForgetsSiblings(entry: seq<Key>, leftover: seq<Key>, key: Key)
    ensures StepPath(entry + leftover, |entry|, key) == entry + [key]
  {
    assert (entry + leftover)[..|entry|] == entry;
  }
}
