/**
 * The two pieces of lib/convert-api/libre-office.ts that decide something:
 * the process-tree closure `getDescendantPids` falls back to on Windows, and
 * the choice of the converted file in `convertDocxFile`.
 */
module LibreOffice {
  import opened Wrappers
  import opened Text

  /** One row of the `Win32_Process` listing. */
  datatype Row = Row(processId: int, parentProcessId: int)

  /** The children of `p` in row order: the list `children.get(p)` ends up holding. */
  function ChildrenOf(rows: seq<Row>, p: int): (r: seq<int>)
    ensures forall c :: c in r <==> exists i :: 0 <= i < |rows| && rows[i] == Row(c, p)
  {
    if rows == [] then []
    else
      var last := rows[|rows| - 1];
      ChildrenOf(rows[..|rows| - 1], p) + (if last.parentProcessId == p then [last.processId] else [])
  }

  /** `children.get(p) || []`. */
  function Lookup(children: map<int, seq<int>>, p: int): seq<int>
  {
    if p in children then children[p] else []
  }

  /** Every pid named in the table, plus the root: no traversal can leave this set. */
  function Universe(rows: seq<Row>, root: int): (u: set<int>)
    ensures root in u
    ensures forall p, c :: c in ChildrenOf(rows, p) ==> c in u
  {
    {root} + set i | 0 <= i < |rows| :: rows[i].processId
  }

  /** `path` walks from `root` along parent-to-child rows. */
  ghost predicate IsPath(rows: seq<Row>, root: int, path: seq<int>)
  {
    && |path| >= 1
    && path[0] == root
    && forall i :: 0 <= i < |path| - 1 ==> path[i + 1] in ChildrenOf(rows, path[i])
  }

  ghost predicate Reachable(rows: seq<Row>, root: int, x: int)
  {
    exists path :: IsPath(rows, root, path) && path[|path| - 1] == x
  }

  /** The loop that builds `children` from the rows. */
  method BuildChildren(rows: seq<Row>) returns (children: map<int, seq<int>>)
    ensures forall p :: Lookup(children, p) == ChildrenOf(rows, p)
  {
    children := map[];
    for i := 0 to |rows|
      invariant forall p :: Lookup(children, p) == ChildrenOf(rows[..i], p)
    {
      var r := rows[i];
      var arr := Lookup(children, r.parentProcessId);
      ghost var before := children;
      children := children[r.parentProcessId := arr + [r.processId]];
      forall p ensures Lookup(children, p) == ChildrenOf(rows[..i + 1], p) {
        ChildrenOfSnoc(rows, i, p);
        if p != r.parentProcessId {
          assert Lookup(children, p) == Lookup(before, p);
        }
      }
    }
    assert rows[..|rows|] == rows;
  }

  /** One more row adds its pid to the children of its parent and changes no other list. */
  lemma ChildrenOfSnoc(rows: seq<Row>, i: nat, p: int)
    requires i < |rows|
    ensures ChildrenOf(rows[..i + 1], p)
            == ChildrenOf(rows[..i], p) + (if rows[i].parentProcessId == p then [rows[i].processId] else [])
  {
    assert rows[..i + 1][..i] == rows[..i];
  }

  ghost predicate AllReachable(rows: seq<Row>, root: int, all: seq<int>)
  {
    forall x :: x in all ==> Reachable(rows, root, x)
  }

  /** Every member that is no longer waiting on the stack has all its children among the members. */
  ghost predicate ClosedOutsideStack(rows: seq<Row>, all: seq<int>, stack: seq<int>)
  {
    forall x, c :: x in all && x !in stack && c in ChildrenOf(rows, x) ==> c in all
  }

  /** The inner `for` loop: each child not yet in `all` is added to it and pushed. */
  method PushNewChildren(ghost rows: seq<Row>, ghost rootPid: int, cur: int, kids: seq<int>,
                         all0: seq<int>, stack0: seq<int>) returns (all: seq<int>, stack: seq<int>)
    requires kids == ChildrenOf(rows, cur)
    requires cur in all0 && Distinct(all0)
    requires AllReachable(rows, rootPid, all0)
    ensures all0 <= all && Distinct(all)
    ensures stack == stack0 + all[|all0|..]
    ensures forall c :: c in kids ==> c in all
    ensures forall x :: x in all ==> x in all0 || x in kids
    ensures AllReachable(rows, rootPid, all)
  {
    assert Reachable(rows, rootPid, cur);
    ghost var path :| IsPath(rows, rootPid, path) && path[|path| - 1] == cur;
    all, stack := all0, stack0;
    for j := 0 to |kids|
      invariant all0 <= all && Distinct(all)
      invariant stack == stack0 + all[|all0|..]
      invariant forall k :: 0 <= k < j ==> kids[k] in all
      invariant forall x :: x in all ==> x in all0 || x in kids
      invariant AllReachable(rows, rootPid, all)
    {
      var c := kids[j];
      if c !in all {
        assert IsPath(rows, rootPid, path + [c]);
        all := all + [c];
        stack := stack + [c];
      }
    }
  }

  /** What holds between rounds of the `while` loop; `members` is the set of `all`. */
  ghost predicate Traversal(rows: seq<Row>, rootPid: int, universe: set<int>,
                            all: seq<int>, stack: seq<int>, members: set<int>)
  {
    && |all| >= 1 && all[0] == rootPid
    && Distinct(all)
    && members == (set x | x in all)
    && members <= universe
    && (forall x :: x in stack ==> x in all)
    && ClosedOutsideStack(rows, all, stack)
    && AllReachable(rows, rootPid, all)
  }

  /**
   * One round of the `while` loop: pop the top pid and push its children
   * not seen yet. Either new pids are seen or the stack gets shorter.
   */
  method PopAndPush(rows: seq<Row>, rootPid: int, children: map<int, seq<int>>, ghost universe: set<int>,
                    all0: seq<int>, stack0: seq<int>, ghost members0: set<int>)
    returns (all: seq<int>, stack: seq<int>, ghost members: set<int>)
    requires forall p :: Lookup(children, p) == ChildrenOf(rows, p)
    requires universe == Universe(rows, rootPid)
    requires Traversal(rows, rootPid, universe, all0, stack0, members0) && stack0 != []
    ensures Traversal(rows, rootPid, universe, all, stack, members)
    ensures |universe - members| < |universe - members0| || (members == members0 && |stack| < |stack0|)
  {
    var cur := stack0[|stack0| - 1];
    assert stack0 == stack0[..|stack0| - 1] + [cur];
    var popped := stack0[..|stack0| - 1];
    all, stack := PushNewChildren(rows, rootPid, cur, Lookup(children, cur), all0, popped);
    ClosedStep(rows, cur, all0, popped, all, stack);
    members := set x | x in all;
    Progress(universe, all0, all, members0, members);
  }

  /**
   * The depth-first closure from `rootPid`: the root first, then every pid
   * reachable through the rows, each once, in the order the `Set` receives
   * them. The `all.has` guard makes it stop on a table with cycles.
   */
  method DescendantsFromRows(rows: seq<Row>, rootPid: int) returns (all: seq<int>)
    ensures |all| >= 1 && all[0] == rootPid
    ensures Distinct(all)
    ensures forall x, c :: x in all && c in ChildrenOf(rows, x) ==> c in all
    ensures forall x :: x in all ==> Reachable(rows, rootPid, x)
  {
    var children := BuildChildren(rows);
    ghost var universe := Universe(rows, rootPid);
    var stack := [rootPid];
    all := [rootPid];
    ghost var members: set<int> := {rootPid};
    assert IsPath(rows, rootPid, [rootPid]);
    while stack != []
      invariant Traversal(rows, rootPid, universe, all, stack, members)
      decreases |universe - members|, |stack|
    {
      all, stack, members := PopAndPush(rows, rootPid, children, universe, all, stack, members);
    }
  }

  /** Members of a sequence that extends `a` are members of `a` or of the extension. */
  lemma PrefixMembership(a: seq<int>, b: seq<int>)
    requires a <= b
    ensures forall x :: x in b ==> x in a || x in b[|a|..]
    ensures forall x :: x in a ==> x in b
    ensures forall x :: x in b[|a|..] ==> x in b
  {
    forall x | x in b ensures x in a || x in b[|a|..] {
      var i :| 0 <= i < |b| && b[i] == x;
      if i < |a| { assert a[i] == x; } else { assert b[|a|..][i - |a|] == x; }
    }
    forall x | x in a ensures x in b {
      var i :| 0 <= i < |a| && a[i] == x;
      assert b[i] == x;
    }
    forall x | x in b[|a|..] ensures x in b {
      var i :| 0 <= i < |b[|a|..]| && b[|a|..][i] == x;
      assert b[|a| + i] == x;
    }
  }

  /** One round of the `while` loop keeps the closure invariant. */
  lemma ClosedStep(rows: seq<Row>, cur: int, all0: seq<int>, stack0: seq<int>, all: seq<int>, stack: seq<int>)
    requires ClosedOutsideStack(rows, all0, stack0 + [cur])
    requires forall c :: c in ChildrenOf(rows, cur) ==> c in all
    requires all0 <= all && stack == stack0 + all[|all0|..]
    requires forall x :: x in stack0 ==> x in all0
    ensures ClosedOutsideStack(rows, all, stack)
    ensures forall x :: x in stack ==> x in all
  {
    PrefixMembership(all0, all);
    forall x, c | x in all && x !in stack && c in ChildrenOf(rows, x) ensures c in all {
      if x != cur {
        assert x in all0 && x !in stack0 + [cur];
      }
    }
  }

  /** Growing a subset of `u` shrinks what is left of `u`. */
  lemma StrictShrink(u: set<int>, a: set<int>, b: set<int>)
    requires a <= b <= u && a != b
    ensures |u - b| < |u - a|
  {
    var d := b - a;
    assert d != {};
    assert u - a == (u - b) + d;
    assert (u - b) * d == {};
  }

  /** Each round either adds members or, adding none, leaves the stack one shorter. */
  lemma Progress(universe: set<int>, all0: seq<int>, all: seq<int>, members0: set<int>, members: set<int>)
    requires members0 == set x | x in all0
    requires members == set x | x in all
    requires all0 <= all && Distinct(all)
    requires members <= universe
    ensures members0 <= members
    ensures members == members0 ==> all == all0
    ensures members != members0 ==> |universe - members| < |universe - members0|
  {
    PrefixMembership(all0, all);
    if |all| > |all0| {
      var y := all[|all0|];
      assert y !in all0 by {
        forall k | 0 <= k < |all0| ensures all0[k] != y { assert all0[k] == all[k]; }
      }
      assert y in members && y !in members0;
      StrictShrink(universe, members0, members);
    } else {
      assert all == all0;
    }
  }

  /**
   * `getDescendantPids(rootPid)` with its outside calls as inputs: the
   * `pidtree` result (`None` when it threw), whether the platform is Windows,
   * and the parsed process table (`None` when PowerShell or parsing failed).
   */
  method GetDescendantPids(pidtree: Option<seq<int>>, isWin32: bool, rows: Option<seq<Row>>, rootPid: int)
    returns (pids: seq<int>)
    ensures pidtree.Some? && |pidtree.value| >= 1 ==> pids == pidtree.value
    ensures !(pidtree.Some? && |pidtree.value| >= 1) && !(isWin32 && rows.Some?) ==> pids == [rootPid]
    ensures !(pidtree.Some? && |pidtree.value| >= 1) && isWin32 && rows.Some? ==>
              && |pids| >= 1 && pids[0] == rootPid
              && Distinct(pids)
              && (forall x, c :: x in pids && c in ChildrenOf(rows.value, x) ==> c in pids)
              && (forall x :: x in pids ==> Reachable(rows.value, rootPid, x))
  {
    if pidtree.Some? && |pidtree.value| >= 1 {
      pids := pidtree.value;
    } else if isWin32 && rows.Some? {
      pids := DescendantsFromRows(rows.value, rootPid);
    } else {
      pids := [rootPid];
    }
  }

  /**
   * `f.toLowerCase().endsWith(".pdf")`. Only the ASCII letters P, D and F
   * lower-case to 'p', 'd' and 'f', so ASCII folding decides it.
   */
  predicate IsPdfName(f: string)
  {
    |f| >= 4 && f[|f| - 4] == '.' && Lower(f[|f| - 3]) == 'p' && Lower(f[|f| - 2]) == 'd' && Lower(f[|f| - 1]) == 'f'
  }

  /** The test agrees with lower-casing the name and then looking at its last four characters. */
  lemma PdfNameIgnoresCase(f: string)
    ensures IsPdfName(f) <==> EndsWith(LowerAll(f), ".pdf")
  {
    var l := LowerAll(f);
    if |f| >= 4 {
      assert l[|l| - 4..] == [l[|f| - 4], l[|f| - 3], l[|f| - 2], l[|f| - 1]];
    }
  }

  datatype ConvertError = NoPdfProduced

  /** `files.find(...)`, and the error `convertDocxFile` raises when nothing is found. */
  function PickPdf(files: seq<string>): (r: Result<string, ConvertError>)
    ensures r.Ok? ==> exists i :: 0 <= i < |files| && files[i] == r.value && IsPdfName(files[i])
                                && forall j :: 0 <= j < i ==> !IsPdfName(files[j])
    ensures r.Err? <==> forall i :: 0 <= i < |files| ==> !IsPdfName(files[i])
  {
    if files == [] then Err(NoPdfProduced)
    else if IsPdfName(files[0]) then Ok(files[0])
    else
      var rest := PickPdf(files[1..]);
      assert forall i :: 1 <= i < |files| ==> files[i] == files[1..][i - 1];
      rest
  }
}
