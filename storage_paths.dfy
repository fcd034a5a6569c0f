/** Object-store paths of uploaded résumés: `resumes/<user id>-<milliseconds>.pdf`. */
module StoragePaths {
  import opened Strings

  /** The path the upload and update routes build from the user id and `Date.now()`. */
  function ResumePath(userId: string, now: nat): string {
    "resumes/" + userId + "-" + Decimal(now) + ".pdf"
  }

  lemma DashAfter(u: string, d: string)
    ensures (u + "-" + d)[|u|] == '-'
  {
  }

  lemma NoDashInDigits(u: string, d: string, i: int)
    requires forall k :: 0 <= k < |d| ==> IsDigit(d[k])
    requires |u| < i < |u| + 1 + |d|
    ensures (u + "-" + d)[i] != '-'
  {
    assert (u + "-" + d)[i] == d[i - |u| - 1];
  }

  /** A user id followed by a dash and a run of digits splits back into the two
      at the last dash. */
  lemma {:induction false} SplitAtLastDash(u1: string, d1: string, u2: string, d2: string)
    requires forall i :: 0 <= i < |d1| ==> IsDigit(d1[i])
    requires forall i :: 0 <= i < |d2| ==> IsDigit(d2[i])
    requires u1 + "-" + d1 == u2 + "-" + d2
    ensures u1 == u2 && d1 == d2
  {
    var m := u1 + "-" + d1;
    if |d1| < |d2| {
      DashAfter(u1, d1);
      NoDashInDigits(u2, d2, |u1|);
      assert false;
    } else if |d2| < |d1| {
      DashAfter(u2, d2);
      NoDashInDigits(u1, d1, |u2|);
      assert false;
    } else {
      assert u1 == m[..|u1|];
      assert d1 == m[|u1| + 1..];
    }
  }

  /** Two uploads get the same path only when they are for the same user in the
      same millisecond; `upsert: false` then rejects the second. */
  lemma ResumePathInjective(u1: string, n1: nat, u2: string, n2: nat)
    requires ResumePath(u1, n1) == ResumePath(u2, n2)
    ensures u1 == u2 && n1 == n2
  {
    var p := ResumePath(u1, n1);
    var m1 := u1 + "-" + Decimal(n1);
    var m2 := u2 + "-" + Decimal(n2);
    assert p == "resumes/" + m1 + ".pdf";
    assert p == "resumes/" + m2 + ".pdf";
    assert |m1| == |m2|;
    assert m1 == p[8..|p| - 4];
    assert m2 == p[8..|p| - 4];
    SplitAtLastDash(u1, Decimal(n1), u2, Decimal(n2));
    DecimalInjective(n1, n2);
  }
}
