/** Shortening a Go handler name for log lines: a method value's full name
    such as `github.com/Util787/taskmanager/internal/handlers.(*Handler).createTask-fm`
    becomes `handlers.createTask`. */
module HandlerName {
  import opened GoStrings

  const MethodValueSuffix := "-fm"
  const ReceiverMarker := ".(*Handler)"

  /** `strings.TrimSuffix`: drop one copy of `suffix` from the end, if there. */
  function TrimSuffix(s: string, suffix: string): (r: string)
    ensures HasSuffix(s, suffix) ==> r + suffix == s
    ensures !HasSuffix(s, suffix) ==> r == s
  {
    if HasSuffix(s, suffix) then s[..|s| - |suffix|] else s
  }

  /** Trimming undoes appending, exactly once. */
  lemma TrimSuffixRoundTrip(s: string, suffix: string)
    ensures TrimSuffix(s + suffix, suffix) == s
  {
  }

  /** `strings.Split` around a one-character separator. */
  function Split(s: string, sep: char): (parts: seq<string>)
    ensures |parts| >= 1
    ensures forall i | 0 <= i < |parts| :: sep !in parts[i]
    decreases |s|
  {
    if |s| == 0 then [""]
    else
      var rest := Split(s[1..], sep);
      if s[0] == sep then [""] + rest
      else [[s[0]] + rest[0]] + rest[1..]
  }

  /** `strings.Join`, the inverse partner of `Split`. */
  function Join(parts: seq<string>, sep: char): (joined: string)
    requires |parts| >= 1
    decreases |parts|
  {
    if |parts| == 1 then parts[0] else parts[0] + [sep] + Join(parts[1..], sep)
  }

  /** Joining the parts back with the separator gives the input again. */
  lemma {:induction false} JoinSplit(s: string, sep: char)
    ensures Join(Split(s, sep), sep) == s
    decreases |s|
  {
    if |s| == 0 {
    } else {
      var rest := Split(s[1..], sep);
      JoinSplit(s[1..], sep);
      if s[0] == sep {
        assert Split(s, sep)[1..] == rest;
      } else {
        var parts := Split(s, sep);
        if |rest| == 1 {
          assert parts == [[s[0]] + rest[0]];
        } else {
          assert parts[1..] == rest[1..];
          assert Join(rest, sep) == rest[0] + [sep] + Join(rest[1..], sep);
        }
      }
      assert s == [s[0]] + s[1..];
    }
  }

  /** Splitting a join of separator-free parts gives the parts again. */
  lemma {:induction false} SplitJoin(parts: seq<string>, sep: char)
    requires |parts| >= 1
    requires forall i | 0 <= i < |parts| :: sep !in parts[i]
    ensures Split(Join(parts, sep), sep) == parts
    decreases |parts|, |parts[0]|
  {
    var p := parts[0];
    if |p| == 0 {
      if |parts| > 1 {
        SplitJoin(parts[1..], sep);
        var j := Join(parts, sep);
        assert j == [sep] + Join(parts[1..], sep);
        assert j[1..] == Join(parts[1..], sep);
        assert Split(j, sep) == [""] + parts[1..];
        assert parts == [""] + parts[1..];
      }
    } else {
      var shorter := [p[1..]] + parts[1..];
      assert forall i | 1 <= i < |shorter| :: shorter[i] == parts[i];
      assert p[1..] == shorter[0];
      SplitJoin(shorter, sep);
      var j := Join(parts, sep);
      assert shorter[1..] == parts[1..];
      assert Join(shorter, sep) == j[1..] by {
        if |parts| > 1 {
          assert j == p + [sep] + Join(parts[1..], sep);
        }
      }
      assert j[0] == p[0];
      assert p == [p[0]] + p[1..];
      assert Split(j, sep) == [[p[0]] + shorter[0]] + shorter[1..];
      assert parts == [p] + parts[1..];
    }
  }

  /** `strings.ReplaceAll(s, pat, "")`: one left-to-right pass deleting
      non-overlapping occurrences; text left behind that happens to form a
      new occurrence is kept. With an empty pattern nothing changes. The
      deletion only removes characters; a text with no occurrence of the
      pattern passes through unchanged, and one with an occurrence loses at
      least one whole copy of the pattern. */
  function DeleteAll(s: string, pat: string): (r: string)
    ensures |r| <= |s|
    ensures Subsequence(r, s)
    ensures !Contains(s, pat) ==> r == s
    ensures |pat| > 0 && Contains(s, pat) ==> |r| + |pat| <= |s|
  {
    PassSubsequence(s, pat);
    SubsequenceFacts(DeletePass(s, pat), s);
    PassWithoutOccurrence(s, pat);
    PassRemovesOccurrence(s, pat);
    DeletePass(s, pat)
  }

  /** The scan behind `DeleteAll`: at each position either a whole match is
      dropped or one character is copied. */
  function DeletePass(s: string, pat: string): (r: string)
    decreases |s|
  {
    if |pat| == 0 || |s| < |pat| then s
    else if s[..|pat|] == pat then DeletePass(s[|pat|..], pat)
    else [s[0]] + DeletePass(s[1..], pat)
  }

  lemma {:induction false} PassSubsequence(s: string, pat: string)
    ensures Subsequence(DeletePass(s, pat), s)
    decreases |s|
  {
    if |pat| == 0 || |s| < |pat| {
      SubsequenceReflexive(s);
    } else if s[..|pat|] == pat {
      PassSubsequence(s[|pat|..], pat);
      SubsequenceDropPrefix(DeletePass(s[|pat|..], pat), s, |pat|);
    } else {
      PassSubsequence(s[1..], pat);
      assert ([s[0]] + DeletePass(s[1..], pat))[1..] == DeletePass(s[1..], pat);
    }
  }

  lemma {:induction false} PassWithoutOccurrence(s: string, pat: string)
    ensures !Contains(s, pat) ==> DeletePass(s, pat) == s
    decreases |s|
  {
    if |pat| == 0 || |s| < |pat| {
    } else if s[..|pat|] == pat {
      assert OccursAt(s, pat, 0);
    } else {
      TailOccurrence(s, pat);
      PassWithoutOccurrence(s[1..], pat);
      assert s == [s[0]] + s[1..];
    }
  }

  lemma {:induction false} PassRemovesOccurrence(s: string, pat: string)
    ensures |pat| > 0 && Contains(s, pat) ==> |DeletePass(s, pat)| + |pat| <= |s|
    decreases |s|
  {
    if |pat| > 0 && Contains(s, pat) {
      var i: nat :| i <= |s| && OccursAt(s, pat, i);
      if s[..|pat|] == pat {
        PassSubsequence(s[|pat|..], pat);
        SubsequenceFacts(DeletePass(s[|pat|..], pat), s[|pat|..]);
      } else {
        assert i > 0;
        assert OccursAt(s[1..], pat, i - 1) by {
          assert s[1..][i - 1..i - 1 + |pat|] == s[i..i + |pat|];
        }
        PassRemovesOccurrence(s[1..], pat);
      }
    }
  }

  /** The `strings.Replace` loop: find the leftmost match, copy the text
      before it, drop the match, and carry on after it. With the case of no
      match this determines the result completely, so every match the scan
      meets is removed, not only the first. */
  lemma DeleteAllAtFirstMatch(s: string, pat: string, i: nat)
    requires |pat| > 0 && OccursAt(s, pat, i)
    requires forall j: nat | j < i :: !OccursAt(s, pat, j)
    ensures DeleteAll(s, pat) == s[..i] + DeleteAll(s[i + |pat|..], pat)
  {
    PassAtFirstMatch(s, pat, i);
  }

  lemma {:induction false} PassAtFirstMatch(s: string, pat: string, i: nat)
    requires |pat| > 0 && OccursAt(s, pat, i)
    requires forall j: nat | j < i :: !OccursAt(s, pat, j)
    ensures DeletePass(s, pat) == s[..i] + DeletePass(s[i + |pat|..], pat)
    decreases i
  {
    if i == 0 {
      assert s[..|pat|] == pat;
      assert s[..0] == [];
    } else {
      FirstMatchInTail(s, pat, i);
      PassAtFirstMatch(s[1..], pat, i - 1);
      assert !OccursAt(s, pat, 0);
      PassCopiesBeforeMatch(s, pat, i);
    }
  }

  /** One step of the scan before the leftmost match: the first character is
      copied, and the rest is the scan of the tail. */
  lemma PassCopiesBeforeMatch(s: string, pat: string, i: nat)
    requires 0 < i && 0 < |pat| && i + |pat| <= |s| && s[..|pat|] != pat
    requires DeletePass(s[1..], pat)
             == s[1..][..i - 1] + DeletePass(s[1..][i - 1 + |pat|..], pat)
    ensures DeletePass(s, pat) == s[..i] + DeletePass(s[i + |pat|..], pat)
  {
    PassSkipsChar(s, pat);
    assert s[1..][i - 1 + |pat|..] == s[i + |pat|..];
    CopiedPrefix(s, i, DeletePass(s, pat), DeletePass(s[1..], pat), DeletePass(s[i + |pat|..], pat));
  }

  /** Copying the first character in front of the copied text before the
      match gives the whole text before the match. */
  lemma CopiedPrefix(s: string, i: nat, whole: string, tail: string, after: string)
    requires 0 < i <= |s|
    requires whole == [s[0]] + tail
    requires tail == s[1..][..i - 1] + after
    ensures whole == s[..i] + after
  {
    assert s[..i] == [s[0]] + s[1..][..i - 1];
  }

  /** Dropping the first character moves the leftmost match one place left. */
  lemma FirstMatchInTail(s: string, pat: string, i: nat)
    requires 0 < i && OccursAt(s, pat, i)
    requires forall j: nat | j < i :: !OccursAt(s, pat, j)
    ensures OccursAt(s[1..], pat, i - 1)
    ensures forall j: nat | j < i - 1 :: !OccursAt(s[1..], pat, j)
  {
    var t := s[1..];
    assert t[i - 1..i - 1 + |pat|] == s[i..i + |pat|];
    forall j: nat | j < i - 1
      ensures !OccursAt(t, pat, j)
    {
      assert !OccursAt(s, pat, j + 1);
      if j + |pat| <= |t| {
        assert t[j..j + |pat|] == s[j + 1..j + 1 + |pat|];
      }
    }
  }

  /** An occurrence in the tail is an occurrence in the whole text. */
  lemma TailOccurrence(s: string, pat: string)
    requires |s| > 0
    ensures Contains(s[1..], pat) ==> Contains(s, pat)
  {
    if Contains(s[1..], pat) {
      assert s == [s[0]] + s[1..] + "";
      ContainsInExtension([s[0]], s[1..], "", pat);
    }
  }

  /** The deletion only removes characters: its result is a subsequence of the
      input, hence no longer and free of any character the input lacks. */
  predicate Subsequence(a: string, b: string)
    decreases |b|
  {
    if |a| == 0 then true
    else if |b| == 0 then false
    else if a[0] == b[0] then Subsequence(a[1..], b[1..])
    else Subsequence(a, b[1..])
  }

  lemma {:induction false} SubsequenceFacts(a: string, b: string)
    requires Subsequence(a, b)
    ensures |a| <= |b|
    ensures forall c | c in a :: c in b
    decreases |b|
  {
    if |a| == 0 {
    } else if a[0] == b[0] {
      SubsequenceFacts(a[1..], b[1..]);
      assert forall c | c in a :: c == a[0] || c in a[1..];
      assert forall c | c in b[1..] :: c in b;
    } else {
      SubsequenceFacts(a, b[1..]);
      assert forall c | c in b[1..] :: c in b;
    }
  }

  lemma {:induction false} SubsequenceReflexive(s: string)
    ensures Subsequence(s, s)
    decreases |s|
  {
    if |s| > 0 { SubsequenceReflexive(s[1..]); }
  }

  /** A subsequence of a suffix is a subsequence of the whole. */
  lemma {:induction false} SubsequenceDropPrefix(a: string, s: string, n: nat)
    requires n <= |s|
    requires Subsequence(a, s[n..])
    ensures Subsequence(a, s)
    decreases n
  {
    if n > 0 {
      assert s[1..][n - 1..] == s[n..];
      SubsequenceDropPrefix(a, s[1..], n - 1);
      if |a| > 0 && a[0] == s[0] {
        SubsequenceWeaken(a, s[1..]);
      }
    }
  }

  /** Dropping the head of `a` keeps it a subsequence. */
  lemma {:induction false} SubsequenceWeaken(a: string, b: string)
    requires |a| > 0 && Subsequence(a, b)
    ensures Subsequence(a[1..], b)
    decreases |b|
  {
    if a[0] == b[0] {
      if |a[1..]| > 0 && a[1..][0] == b[0] {
        SubsequenceWeaken(a[1..], b[1..]);
      }
    } else {
      SubsequenceWeaken(a, b[1..]);
      if |a[1..]| > 0 && a[1..][0] == b[0] {
        SubsequenceWeaken(a[1..], b[1..]);
      }
    }
  }

  /** `getPackageAndHandlerName`. */
  function PackageAndHandlerName(fullName: string): (r: string)
    ensures '/' !in r
    ensures |r| <= |fullName|
    ensures forall c | c in r :: c in fullName
  {
    var trimmed := TrimSuffix(fullName, MethodValueSuffix);
    var parts := Split(trimmed, '/');
    var lastPart := parts[|parts| - 1];
    LastPartFacts(trimmed, '/');
    SubsequenceFacts(DeleteAll(lastPart, ReceiverMarker), lastPart);
    DeleteAll(lastPart, ReceiverMarker)
  }

  /** The last part of a split is a suffix of the input. */
  lemma LastPartFacts(s: string, sep: char)
    ensures var parts := Split(s, sep);
      && |parts[|parts| - 1]| <= |s|
      && forall c | c in parts[|parts| - 1] :: c in s
  {
    var parts := Split(s, sep);
    var k := |parts[|parts| - 1]|;
    LastPartIsSuffix(s, sep);
    assert s[|s| - k..] == parts[|parts| - 1];
    assert forall c | c in s[|s| - k..] :: c in s;
  }

  lemma {:induction false} LastPartIsSuffix(s: string, sep: char)
    ensures var parts := Split(s, sep);
      |parts[|parts| - 1]| <= |s| && s[|s| - |parts[|parts| - 1]|..] == parts[|parts| - 1]
    decreases |s|
  {
    if |s| > 0 {
      LastPartIsSuffix(s[1..], sep);
      var rest := Split(s[1..], sep);
      var parts := Split(s, sep);
      var last := rest[|rest| - 1];
      if s[0] == sep || |rest| > 1 {
        assert parts[|parts| - 1] == last;
        SuffixOfTail(s, |last|);
      } else {
        assert parts == [[s[0]] + rest[0]];
        JoinSplit(s[1..], sep);
        assert s == [s[0]] + rest[0];
      }
    }
  }

  lemma SuffixOfTail(s: string, k: nat)
    requires 0 < |s| && k <= |s| - 1
    ensures s[1..][|s| - 1 - k..] == s[|s| - k..]
  {
  }

  /** A bare name (no slash, no `-fm` ending, no receiver marker) is kept as is. */
  lemma PlainNameUnchanged(s: string)
    requires '/' !in s
    requires !HasSuffix(s, MethodValueSuffix)
    requires !Contains(s, ReceiverMarker)
    ensures PackageAndHandlerName(s) == s
  {
    SplitWithoutSeparator(s, '/');
  }

  lemma {:induction false} SplitWithoutSeparator(s: string, sep: char)
    requires sep !in s
    ensures Split(s, sep) == [s]
    decreases |s|
  {
    if |s| > 0 {
      assert sep !in s[1..] by { assert forall c | c in s[1..] :: c in s; }
      SplitWithoutSeparator(s[1..], sep);
      assert s == [s[0]] + s[1..];
    }
  }

  /** Splitting distributes over a separator: the parts on either side are
      split on their own. */
  lemma {:induction false} SplitAround(a: string, b: string, sep: char)
    ensures Split(a + [sep] + b, sep) == Split(a, sep) + Split(b, sep)
    decreases |a|
  {
    var s := a + [sep] + b;
    if |a| == 0 {
      assert s[1..] == b;
    } else {
      assert s[1..] == a[1..] + [sep] + b;
      SplitAround(a[1..], b, sep);
    }
  }

  /** The last part is whatever follows the last separator. */
  lemma LastPartAfterSeparator(a: string, b: string, sep: char)
    requires sep !in b
    ensures var parts := Split(a + [sep] + b, sep); parts[|parts| - 1] == b
  {
    SplitAround(a, b, sep);
    SplitWithoutSeparator(b, sep);
  }

  /** Text before the first possible start of the pattern is copied. */
  lemma {:induction false} PassKeepsPrefix(a: string, t: string, pat: string)
    requires |pat| > 0 && pat[0] !in a
    ensures DeletePass(a + t, pat) == a + DeletePass(t, pat)
    decreases |a|
  {
    if |a| > 0 {
      var s := a + t;
      assert s[1..] == a[1..] + t;
      assert DeletePass(a[1..] + t, pat) == a[1..] + DeletePass(t, pat) by {
        assert pat[0] !in a[1..] by { assert forall c | c in a[1..] :: c in a; }
        PassKeepsPrefix(a[1..], t, pat);
      }
      assert DeletePass(s, pat) == [s[0]] + DeletePass(s[1..], pat) by {
        if |s| >= |pat| {
          assert s[..|pat|][0] == a[0] != pat[0];
          PassSkipsChar(s, pat);
        } else {
          PassShort(s, pat);
          PassShort(s[1..], pat);
          assert s == [s[0]] + s[1..];
        }
      }
      assert a + DeletePass(t, pat) == [a[0]] + (a[1..] + DeletePass(t, pat));
    } else {
      assert a + t == t;
    }
  }

  /** A match at the front is removed and the scan resumes after it. */
  lemma PassDropsMatch(t: string, pat: string)
    requires |pat| > 0
    ensures DeletePass(pat + t, pat) == DeletePass(t, pat)
  {
  }

  /** The name of a method value `dir/pkg.(*Handler)handler-fm` shortens to
      `pkg` followed by `handler`. */
  lemma MethodValueName(dir: string, pkg: string, handler: string)
    requires '/' !in pkg && '/' !in handler && '.' !in pkg
    requires !Contains(handler, ReceiverMarker)
    ensures PackageAndHandlerName(dir + "/" + (pkg + ReceiverMarker + handler) + MethodValueSuffix)
            == pkg + handler
  {
    var last := pkg + ReceiverMarker + handler;
    TrimSuffixRoundTrip(dir + "/" + last, MethodValueSuffix);
    assert '/' !in last by {
      assert forall c | c in last :: c in pkg || c in ReceiverMarker || c in handler;
    }
    LastPartAfterSeparator(dir, last, '/');
    DeleteMarkerBetween(pkg, handler);
  }

  lemma DeleteMarkerBetween(pkg: string, handler: string)
    requires '.' !in pkg
    requires !Contains(handler, ReceiverMarker)
    ensures DeleteAll(pkg + ReceiverMarker + handler, ReceiverMarker) == pkg + handler
  {
    assert pkg + ReceiverMarker + handler == pkg + (ReceiverMarker + handler);
    PassKeepsPrefix(pkg, ReceiverMarker + handler, ReceiverMarker);
    PassDropsMatch(handler, ReceiverMarker);
    PassWithoutOccurrence(handler, ReceiverMarker);
  }

  /** The documented example. */
  lemma DocumentedExample()
    ensures PackageAndHandlerName("github.com/Util787/taskmanager/internal/handlers.(*Handler).createTask-fm")
            == "handlers.createTask"
  {
    DocumentedExampleParts();
    CreateTaskHasNoMarker();
    MethodValueName("github.com/Util787/taskmanager/internal", "handlers", ".createTask");
  }

  lemma DocumentedExampleParts()
    ensures "github.com/Util787/taskmanager/internal/handlers.(*Handler).createTask-fm"
         == "github.com/Util787/taskmanager/internal" + "/"
            + ("handlers" + ReceiverMarker + ".createTask") + MethodValueSuffix
    ensures "handlers" + ".createTask" == "handlers.createTask"
  {
    TrailingSuffixPart();
    DirectoryPart();
    HandlerPart();
  }

  lemma TrailingSuffixPart()
    ensures "github.com/Util787/taskmanager/internal/handlers.(*Handler).createTask-fm"
         == "github.com/Util787/taskmanager/internal/handlers.(*Handler).createTask" + MethodValueSuffix
  {
  }

  lemma DirectoryPart()
    ensures "github.com/Util787/taskmanager/internal/handlers.(*Handler).createTask"
         == "github.com/Util787/taskmanager/internal" + "/" + "handlers.(*Handler).createTask"
  {
  }

  lemma HandlerPart()
    ensures "handlers.(*Handler).createTask" == "handlers" + ReceiverMarker + ".createTask"
  {
  }

  lemma CreateTaskHasNoMarker()
    ensures !Contains(".createTask", ReceiverMarker)
  {
    var name := ".createTask";
    assert name[1] != ReceiverMarker[1];
  }

  /** The `-fm` ending is removed once, and only at the end of the whole
      name, before it is split. */
  lemma SuffixTrimmedOnce()
    ensures PackageAndHandlerName("pkg.run-fm-fm") == "pkg.run-fm"
  {
    var kept := "pkg.run-fm";
    assert "pkg.run-fm-fm" == kept + MethodValueSuffix;
    TrimSuffixRoundTrip(kept, MethodValueSuffix);
    SplitWithoutSeparator(kept, '/');
    PassShort(kept, ReceiverMarker);
  }

  lemma SuffixOnlyAtEnd()
    ensures PackageAndHandlerName("a/run-fmx") == "run-fmx"
  {
    var name := "a/run-fmx";
    assert !HasSuffix(name, MethodValueSuffix) by {
      assert name[|name| - 1] != MethodValueSuffix[2];
    }
    assert name == "a" + "/" + "run-fmx";
    ShortLastPart("a", "run-fmx");
  }

  /** A last path element too short to hold the receiver marker is the whole
      answer when the name does not end in `-fm`. */
  lemma ShortLastPart(dir: string, last: string)
    requires '/' !in last && |last| < |ReceiverMarker|
    requires !HasSuffix(dir + "/" + last, MethodValueSuffix)
    ensures PackageAndHandlerName(dir + "/" + last) == last
  {
    LastPartAfterSeparator(dir, last, '/');
    PassShort(last, ReceiverMarker);
  }

  /** Deletion is one pass: a marker that only appears once an inner marker
      is gone survives. */
  lemma DeletionIsSinglePass()
    ensures DeleteAll(".(*Hand.(*Handler)ler)", ReceiverMarker) == ReceiverMarker
  {
    assert ReceiverMarker == ['.'] + "(*Hand" + "ler)";
    assert ".(*Hand.(*Handler)ler)" == ['.'] + "(*Hand" + ReceiverMarker + "ler)";
    SinglePassSplit('.', "(*Hand", "ler)");
  }

  /** A pattern `pat = c + head + tail`, whose first character `c` occurs
      nowhere else, is left behind by `c + head + pat + tail`. */
  lemma SinglePassSplit(c: char, head: string, tail: string)
    requires c !in head && c !in tail && |tail| > 0
    ensures var pat := [c] + head + tail;
      DeletePass([c] + head + pat + tail, pat) == pat
  {
    var pat := [c] + head + tail;
    var inner := head + (pat + tail);
    SkipFirstCharacter(c, head, tail);
    DeleteInnerMarker(c, head, tail);
    calc {
      DeletePass([c] + head + pat + tail, pat);
      [c] + DeletePass(inner, pat);
      [c] + (head + tail);
      pat;
    }
  }

  lemma SkipFirstCharacter(c: char, head: string, tail: string)
    requires c !in tail && |tail| > 0
    ensures var pat := [c] + head + tail;
      DeletePass([c] + head + pat + tail, pat) == [c] + DeletePass(head + (pat + tail), pat)
  {
    var pat := [c] + head + tail;
    var rest := head + (pat + tail);
    assert [c] + head + pat + tail == [c] + rest;
    NoMatchAtInnerStart(c, head, tail);
    PassSkipsChar([c] + rest, pat);
    assert ([c] + rest)[1..] == rest;
  }

  lemma DeleteInnerMarker(c: char, head: string, tail: string)
    requires c !in head && |tail| > 0
    ensures var pat := [c] + head + tail;
      DeletePass(head + (pat + tail), pat) == head + tail
  {
    var pat := [c] + head + tail;
    PassKeepsPrefix(head, pat + tail, pat);
    PassDropsMatch(tail, pat);
    PassShort(tail, pat);
  }

  lemma NoMatchAtInnerStart(c: char, head: string, tail: string)
    requires c !in tail && |tail| > 0
    ensures var pat := [c] + head + tail;
      ([c] + (head + (pat + tail)))[..|pat|] != pat
  {
    var pat := [c] + head + tail;
    var s := [c] + (head + (pat + tail));
    assert s[..|pat|][|head| + 1] == c;
    assert pat[|head| + 1] == tail[0];
  }

  /** Where no match starts, one character is copied and the scan moves on. */
  lemma PassSkipsChar(s: string, pat: string)
    requires 0 < |pat| <= |s| && s[..|pat|] != pat
    ensures DeletePass(s, pat) == [s[0]] + DeletePass(s[1..], pat)
  {
  }

  /** Text shorter than the pattern is kept. */
  lemma PassShort(s: string, pat: string)
    requires |s| < |pat|
    ensures DeletePass(s, pat) == s
  {
  }
}
