/** The upload panel's status list (`files`): one entry per file name
    with its upload status, updated as `handleFileChange` works through
    the selected files one after another. */
module FileUpload {
  import opened Prelude

  datatype Status = Uploading | Success | Error

  datatype Entry = Entry(name: string, status: Status)

  /** A selected file and whether its upload pipeline (storage upload,
      text extraction, database insert) finished without throwing. */
  datatype Upload = Upload(name: string, ok: bool)

  /** The entries named `n`, in order. */
  function Named(es: seq<Entry>, n: string): (r: seq<Entry>)
    ensures |r| <= |es|
  {
    if |es| == 0 then []
    else
      (if es[0].name == n then [es[0]] else []) + Named(es[1..], n)
  }

  /** `es.filter(f => f.name !== n)`: the entries named otherwise, in order. */
  function Others(es: seq<Entry>, n: string): (r: seq<Entry>)
    ensures |r| <= |es|
  {
    if |es| == 0 then []
    else
      (if es[0].name != n then [es[0]] else []) + Others(es[1..], n)
  }

  /** `Named` and `Others` split the entries by name: each keeps exactly
      the entries with, respectively without, the name. */
  lemma {:induction false} FilterMembers(es: seq<Entry>, n: string)
    ensures forall e :: e in Named(es, n) <==> e in es && e.name == n
    ensures forall e :: e in Others(es, n) <==> e in es && e.name != n
    decreases |es|
  {
    if |es| > 0 {
      FilterMembers(es[1..], n);
      assert forall e :: e in es <==> e == es[0] || e in es[1..];
    }
  }

  lemma {:induction false} NamedAppend(a: seq<Entry>, b: seq<Entry>, n: string)
    ensures Named(a + b, n) == Named(a, n) + Named(b, n)
    decreases |a|
  {
    if |a| > 0 {
      assert (a + b)[0] == a[0];
      assert (a + b)[1..] == a[1..] + b;
      NamedAppend(a[1..], b, n);
    } else {
      assert a + b == b;
    }
  }

  lemma {:induction false} OthersAppend(a: seq<Entry>, b: seq<Entry>, n: string)
    ensures Others(a + b, n) == Others(a, n) + Others(b, n)
    decreases |a|
  {
    if |a| > 0 {
      assert (a + b)[0] == a[0];
      assert (a + b)[1..] == a[1..] + b;
      OthersAppend(a[1..], b, n);
    } else {
      assert a + b == b;
    }
  }

  /** Keeping the entries not named `n` and then those named `m` is keeping
      those named `m` when `m` differs from `n`, and nothing otherwise. */
  lemma {:induction false} NamedOthers(es: seq<Entry>, n: string, m: string)
    ensures Named(Others(es, n), m) == if m == n then [] else Named(es, m)
    decreases |es|
  {
    if |es| > 0 {
      var head := if es[0].name != n then [es[0]] else [];
      NamedAppend(head, Others(es[1..], n), m);
      NamedOthers(es[1..], n, m);
    }
  }

  /** The start of a file: drop every entry of that name, then append it
      as uploading. */
  function StartUpload(es: seq<Entry>, n: string): (r: seq<Entry>)
    ensures |r| >= 1 && r[|r| - 1] == Entry(n, Uploading)
    ensures Named(r, n) == [Entry(n, Uploading)]
    ensures Others(r, n) == Others(es, n)
  {
    var kept := Others(es, n);
    NamedAppend(kept, [Entry(n, Uploading)], n);
    NamedOthers(es, n, n);
    OthersAppend(kept, [Entry(n, Uploading)], n);
    OthersOthers(es, n);
    assert Named([Entry(n, Uploading)], n) == [Entry(n, Uploading)];
    assert Others([Entry(n, Uploading)], n) == [];
    kept + [Entry(n, Uploading)]
  }

  /** Filtering by the same name twice is filtering once. */
  lemma {:induction false} OthersOthers(es: seq<Entry>, n: string)
    ensures Others(Others(es, n), n) == Others(es, n)
    decreases |es|
  {
    if |es| > 0 {
      var head := if es[0].name != n then [es[0]] else [];
      OthersAppend(head, Others(es[1..], n), n);
      OthersOthers(es[1..], n);
      if es[0].name != n {
        assert [es[0]][1..] == [];
      }
    }
  }

  /** Starting an upload leaves every other name's entries as they were. */
  lemma StartUploadOthers(es: seq<Entry>, n: string, m: string)
    requires m != n
    ensures Named(StartUpload(es, n), m) == Named(es, m)
  {
    var kept := Others(es, n);
    NamedAppend(kept, [Entry(n, Uploading)], m);
    NamedOthers(es, n, m);
    assert Named([Entry(n, Uploading)], m) == [];
  }

  /** `prev.map(f => f.name === n ? { ...f, status: s } : f)`. */
  function SetStatus(es: seq<Entry>, n: string, s: Status): (r: seq<Entry>)
    ensures |r| == |es|
  {
    if |es| == 0 then []
    else [if es[0].name == n then es[0].(status := s) else es[0]] + SetStatus(es[1..], n, s)
  }

  /** Entry by entry: names stay, entries of other names stay, and entries
      named `n` get status `s`. */
  lemma {:induction false} SetStatusAt(es: seq<Entry>, n: string, s: Status, k: nat)
    requires k < |es|
    ensures SetStatus(es, n, s)[k].name == es[k].name
    ensures es[k].name != n ==> SetStatus(es, n, s)[k] == es[k]
    ensures es[k].name == n ==> SetStatus(es, n, s)[k].status == s
    decreases k
  {
    if k > 0 {
      SetStatusAt(es[1..], n, s, k - 1);
    }
  }

  /** A status update touches only the entries of its name. */
  lemma {:induction false} SetStatusNamed(es: seq<Entry>, n: string, s: Status, m: string)
    ensures Named(SetStatus(es, n, s), m) == if m == n then SetStatus(Named(es, n), n, s) else Named(es, m)
    decreases |es|
  {
    if |es| > 0 {
      var e := es[0];
      var e' := if e.name == n then e.(status := s) else e;
      var tail := SetStatus(es[1..], n, s);
      assert SetStatus(es, n, s) == [e'] + tail;
      NamedAppend([e'], tail, m);
      SetStatusNamed(es[1..], n, s, m);
      assert es == [e] + es[1..];
      NamedAppend([e], es[1..], m);
      if m == n {
        NamedSetStatusHead(e, es[1..], n, s);
      } else {
        assert Named([e'], m) == Named([e], m);
      }
    }
  }

  /** The first step of `SetStatusNamed` for the updated name. */
  lemma NamedSetStatusHead(e: Entry, rest: seq<Entry>, n: string, s: Status)
    ensures var e' := if e.name == n then e.(status := s) else e;
      Named([e'], n) + SetStatus(Named(rest, n), n, s) == SetStatus(Named([e], n) + Named(rest, n), n, s)
  {
    if e.name == n {
      assert Named([e], n) == [e];
      var t := Named(rest, n);
      assert ([e] + t)[1..] == t;
      assert SetStatus([e] + t, n, s) == [e.(status := s)] + SetStatus(t, n, s);
    } else {
      assert Named([e], n) == [];
      assert [] + Named(rest, n) == Named(rest, n);
    }
  }

  lemma {:induction false} SetStatusAppend(a: seq<Entry>, b: seq<Entry>, n: string, s: Status)
    ensures SetStatus(a + b, n, s) == SetStatus(a, n, s) + SetStatus(b, n, s)
    decreases |a|
  {
    if |a| > 0 {
      assert (a + b)[0] == a[0];
      assert (a + b)[1..] == a[1..] + b;
      SetStatusAppend(a[1..], b, n, s);
    } else {
      assert a + b == b;
    }
  }

  /** A status update for `n` leaves a list without `n` alone. */
  lemma {:induction false} SetStatusOthers(es: seq<Entry>, n: string, s: Status)
    ensures SetStatus(Others(es, n), n, s) == Others(es, n)
    decreases |es|
  {
    if |es| > 0 {
      var head := if es[0].name != n then [es[0]] else [];
      SetStatusAppend(head, Others(es[1..], n), n, s);
      SetStatusOthers(es[1..], n, s);
      if es[0].name != n {
        assert [es[0]][1..] == [];
      }
    }
  }

  /** Re-stamping the entry a start appended: only that last entry changes. */
  lemma RestampLast(es: seq<Entry>, n: string, s0: Status, s: Status)
    ensures SetStatus(Others(es, n) + [Entry(n, s0)], n, s) == Others(es, n) + [Entry(n, s)]
  {
    SetStatusAppend(Others(es, n), [Entry(n, s0)], n, s);
    SetStatusOthers(es, n, s);
    assert [Entry(n, s0)][1..] == [];
  }

  /** One pass of the loop body for `u`: start, mark uploading again, then
      success or error. Returns the list and whether `onUploadSuccess` was
      called. */
  function Process(es: seq<Entry>, u: Upload): (r: (seq<Entry>, bool))
    ensures r.1 == u.ok
    ensures Named(r.0, u.name) == [Entry(u.name, Outcome(u))]
    ensures forall m :: m != u.name ==> Named(r.0, m) == Named(es, m)
    ensures r.0 == Others(es, u.name) + [Entry(u.name, Outcome(u))]
  {
    var started := StartUpload(es, u.name);
    RestampLast(es, u.name, Uploading, Uploading);
    RestampLast(es, u.name, Uploading, Outcome(u));
    var marked := SetStatus(started, u.name, Uploading);
    var final := SetStatus(marked, u.name, Outcome(u));
    SetStatusNamed(started, u.name, Uploading, u.name);
    SetStatusNamed(marked, u.name, Outcome(u), u.name);
    forall m | m != u.name
      ensures Named(final, m) == Named(es, m)
    {
      SetStatusNamed(started, u.name, Uploading, m);
      SetStatusNamed(marked, u.name, Outcome(u), m);
      StartUploadOthers(es, u.name, m);
    }
    (final, u.ok)
  }

  /** Re-uploading a listed file moves its entry to the end. */
  lemma ProcessMovesToEnd()
    ensures Process([Entry("a", Success), Entry("b", Error)], Upload("a", true)).0
         == [Entry("b", Error), Entry("a", Success)]
  {
    var es := [Entry("a", Success), Entry("b", Error)];
    assert Others(es, "a") == [Entry("b", Error)] by {
      assert es[1..] == [Entry("b", Error)];
      assert Others(es[1..], "a") == [Entry("b", Error)] + Others(es[1..][1..], "a");
    }
  }

  /** The names of the uploads that succeeded, in order: the calls to
      `onUploadSuccess`. */
  function Succeeded(us: seq<Upload>): (r: seq<string>)
    ensures |r| <= |us|
    ensures forall n :: n in r ==> exists k :: 0 <= k < |us| && us[k].name == n && us[k].ok
  {
    if |us| == 0 then []
    else
      var rest := Succeeded(us[1..]);
      assert forall n :: n in rest ==> exists k :: 1 <= k < |us| && us[k].name == n && us[k].ok by {
        forall n | n in rest
          ensures exists k :: 1 <= k < |us| && us[k].name == n && us[k].ok
        {
          var j :| 0 <= j < |us[1..]| && us[1..][j].name == n && us[1..][j].ok;
          assert us[j + 1] == us[1..][j];
        }
      }
      (if us[0].ok then [us[0].name] else []) + rest
  }

  /** `Succeeded` is compositional and reports a single upload exactly
      when it succeeded: together these fix the order and the contents
      of the success list for every selection. */
  lemma {:induction false} SucceededAppend(a: seq<Upload>, b: seq<Upload>)
    ensures Succeeded(a + b) == Succeeded(a) + Succeeded(b)
    ensures |a| == 1 ==> Succeeded(a) == if a[0].ok then [a[0].name] else []
    decreases |a|
  {
    if |a| > 0 {
      assert (a + b)[0] == a[0];
      assert (a + b)[1..] == a[1..] + b;
      SucceededAppend(a[1..], b);
      if |a| == 1 {
        assert a[1..] == [];
      }
    } else {
      assert a + b == b;
    }
  }

  /** The files, one after another, in selection order. */
  function ProcessAll(es: seq<Entry>, us: seq<Upload>): (r: seq<Entry>)
    decreases |us|
  {
    if |us| == 0 then es else ProcessAll(Process(es, us[0]).0, us[1..])
  }

  /** The entries of `es` whose name no upload of `us` carries, in order. */
  function Unmentioned(es: seq<Entry>, us: seq<Upload>): (r: seq<Entry>)
    ensures |r| <= |es|
  {
    if |es| == 0 then []
    else (if Mentions(us, es[0].name) then [] else [es[0]]) + Unmentioned(es[1..], us)
  }

  /** One entry per upload that is the last of its name in `us`, with its
      outcome, in selection order. */
  function Finals(us: seq<Upload>): (r: seq<Entry>)
    ensures |r| <= |us|
  {
    if |us| == 0 then []
    else (if Mentions(us[1..], us[0].name) then [] else [Entry(us[0].name, Outcome(us[0]))]) + Finals(us[1..])
  }

  lemma MentionsSnoc(us: seq<Upload>, u: Upload, n: string)
    ensures Mentions(us + [u], n) <==> Mentions(us, n) || u.name == n
  {
    if Mentions(us + [u], n) && u.name != n {
      var k :| 0 <= k < |us + [u]| && (us + [u])[k].name == n;
      assert k < |us| && us[k] == (us + [u])[k];
    }
    if Mentions(us, n) {
      var k :| 0 <= k < |us| && us[k].name == n;
      assert (us + [u])[k] == us[k];
    }
    assert (us + [u])[|us|] == u;
  }

  lemma {:induction false} UnmentionedNone(es: seq<Entry>)
    ensures Unmentioned(es, []) == es
    decreases |es|
  {
    if |es| > 0 {
      UnmentionedNone(es[1..]);
      assert es == [es[0]] + es[1..];
    }
  }

  /** One more upload also removes its name from the untouched entries. */
  lemma {:induction false} UnmentionedSnoc(es: seq<Entry>, us: seq<Upload>, u: Upload)
    ensures Others(Unmentioned(es, us), u.name) == Unmentioned(es, us + [u])
    decreases |es|
  {
    if |es| > 0 {
      var head := if Mentions(us, es[0].name) then [] else [es[0]];
      OthersAppend(head, Unmentioned(es[1..], us), u.name);
      UnmentionedSnoc(es[1..], us, u);
      MentionsSnoc(us, u, es[0].name);
      if !Mentions(us, es[0].name) {
        assert [es[0]][1..] == [];
      }
    }
  }

  /** One more upload drops the earlier final entry of its name and puts
      its own at the end. */
  lemma {:induction false} FinalsSnoc(us: seq<Upload>, u: Upload)
    ensures Finals(us + [u]) == Others(Finals(us), u.name) + [Entry(u.name, Outcome(u))]
    decreases |us|
  {
    var e := Entry(u.name, Outcome(u));
    if |us| > 0 {
      var v := us[0];
      assert (us + [u])[0] == v;
      assert (us + [u])[1..] == us[1..] + [u];
      MentionsSnoc(us[1..], u, v.name);
      FinalsSnoc(us[1..], u);
      var head := if Mentions(us[1..], v.name) then [] else [Entry(v.name, Outcome(v))];
      OthersAppend(head, Finals(us[1..]), u.name);
      if head != [] {
        assert head[1..] == [];
      }
    } else {
      assert [u][1..] == [];
      assert !Mentions([], u.name);
      assert us + [u] == [u];
    }
  }

  /** The loop over `us + [u]` is the loop over `us` and then `u`. */
  lemma {:induction false} ProcessAllSnoc(es: seq<Entry>, us: seq<Upload>, u: Upload)
    ensures ProcessAll(es, us + [u]) == Others(ProcessAll(es, us), u.name) + [Entry(u.name, Outcome(u))]
    decreases |us|
  {
    if |us| > 0 {
      assert (us + [u])[0] == us[0];
      assert (us + [u])[1..] == us[1..] + [u];
      ProcessAllSnoc(Process(es, us[0]).0, us[1..], u);
    } else {
      assert us + [u] == [u];
    }
  }

  /** The list after a selection: first the untouched entries of names not
      selected, in their old order, then one entry per selected name with
      its last outcome, ordered by where that last upload stands. */
  lemma {:induction false} ProcessAllOrder(es: seq<Entry>, us: seq<Upload>)
    ensures ProcessAll(es, us) == Unmentioned(es, us) + Finals(us)
    decreases |us|
  {
    if |us| == 0 {
      UnmentionedNone(es);
    } else {
      var front, u := us[..|us| - 1], us[|us| - 1];
      assert us == front + [u];
      ProcessAllOrder(es, front);
      ProcessAllSnoc(es, front, u);
      OthersAppend(Unmentioned(es, front), Finals(front), u.name);
      UnmentionedSnoc(es, front, u);
      FinalsSnoc(front, u);
    }
  }

  /** `handleFileChange`: nothing when no file list came with the event;
      otherwise every file is processed, and the list and the names passed
      to `onUploadSuccess` are returned. */
  function HandleFileChange(es: seq<Entry>, selection: Option<seq<Upload>>): (r: (seq<Entry>, seq<string>))
    ensures selection.None? ==> r == (es, [])
    ensures selection.Some? ==> r.1 == Succeeded(selection.value)
    ensures selection.Some? ==> forall n :: Mentions(selection.value, n) ==>
      Named(r.0, n) == [Entry(n, LastStatus(selection.value, n))]
    ensures selection.Some? ==> forall n :: !Mentions(selection.value, n) ==> Named(r.0, n) == Named(es, n)
    ensures selection.Some? ==> r.0 == Unmentioned(es, selection.value) + Finals(selection.value)
  {
    match selection
    case None => (es, [])
    case Some(us) =>
      ProcessAllEveryName(es, us);
      ProcessAllOrder(es, us);
      (ProcessAll(es, us), Succeeded(us))
  }

  lemma ProcessAllEveryName(es: seq<Entry>, us: seq<Upload>)
    ensures forall n :: Mentions(us, n) ==> Named(ProcessAll(es, us), n) == [Entry(n, LastStatus(us, n))]
    ensures forall n :: !Mentions(us, n) ==> Named(ProcessAll(es, us), n) == Named(es, n)
  {
    forall n {
      ProcessAllNamed(es, us, n);
    }
  }

  /** Does some upload in `us` carry the name `n`? */
  predicate Mentions(us: seq<Upload>, n: string) {
    exists k :: 0 <= k < |us| && us[k].name == n
  }

  /** The status of the last upload named `n`. */
  function LastStatus(us: seq<Upload>, n: string): (s: Status)
    requires Mentions(us, n)
  {
    var u := us[|us| - 1];
    if u.name == n then Outcome(u)
    else
      assert Mentions(us[..|us| - 1], n) by {
        var k :| 0 <= k < |us| && us[k].name == n;
        assert us[..|us| - 1][k] == us[k];
      }
      LastStatus(us[..|us| - 1], n)
  }

  /** After all files: a name that was uploaded has exactly one entry, with
      the outcome of its last upload (a failure does not stop the files
      after it); every other name's entries are untouched. */
  lemma {:induction false} ProcessAllNamed(es: seq<Entry>, us: seq<Upload>, n: string)
    ensures Mentions(us, n) ==> Named(ProcessAll(es, us), n) == [Entry(n, LastStatus(us, n))]
    ensures !Mentions(us, n) ==> Named(ProcessAll(es, us), n) == Named(es, n)
    decreases |us|
  {
    if |us| > 0 {
      var first := Process(es, us[0]).0;
      ProcessAllNamed(first, us[1..], n);
      MentionsTail(us, n);
      if Mentions(us, n) {
        LastStatusCons(us, n);
      }
    }
  }

  /** Splitting the first upload off. */
  lemma MentionsTail(us: seq<Upload>, n: string)
    requires |us| > 0
    ensures Mentions(us, n) <==> us[0].name == n || Mentions(us[1..], n)
  {
    if Mentions(us, n) && us[0].name != n {
      var k :| 0 <= k < |us| && us[k].name == n;
      assert us[1..][k - 1] == us[k];
    }
    if Mentions(us[1..], n) {
      var k :| 0 <= k < |us[1..]| && us[1..][k].name == n;
      assert us[k + 1] == us[1..][k];
    }
  }

  function Outcome(u: Upload): Status {
    if u.ok then Success else Error
  }

  /** The last upload of a name is the last among the later uploads if
      there is one there, and the first upload otherwise. */
  lemma {:induction false} LastStatusCons(us: seq<Upload>, n: string)
    requires |us| > 0 && Mentions(us, n)
    ensures LastStatus(us, n) == if Mentions(us[1..], n) then LastStatus(us[1..], n) else Outcome(us[0])
    decreases |us|
  {
    MentionsTail(us, n);
    var rest := us[1..];
    if |us| > 1 && us[|us| - 1].name != n {
      var init := us[..|us| - 1];
      assert init[1..] == rest[..|rest| - 1];
      assert init[0] == us[0];
      assert Mentions(init, n) by {
        var k :| 0 <= k < |us| && us[k].name == n;
        assert k < |us| - 1;
        assert init[k] == us[k];
      }
      LastStatusCons(init, n);
      assert Mentions(rest, n) <==> Mentions(init[1..], n) by {
        if Mentions(rest, n) {
          var k :| 0 <= k < |rest| && rest[k].name == n;
          assert init[1..][k] == rest[k];
        }
        if Mentions(init[1..], n) {
          var k :| 0 <= k < |init[1..]| && init[1..][k].name == n;
          assert rest[k] == init[1..][k];
        }
      }
    } else if |us| > 1 {
      assert rest[|rest| - 1] == us[|us| - 1];
      assert Mentions(rest, n) by {
        assert rest[|rest| - 1].name == n;
      }
    }
  }
}
