/**
 * src/components/RepoBranchPicker.jsx: the branch list fills two slots,
 * `branchA` (the base) and `branchB` (the branch compared with it), one
 * click at a time; a form creates a new branch from an existing one.
 */
module RepoBranchPicker {
  import opened Wrappers
  import App

  type Repo = App.Repo

  const CreateFailedPrefix: string := "Branch creation failed: "
  const CreatedPrefix: string := "Branch '"
  const CreatedSuffix: string := "' created successfully."

  /** The two slots after a click on the row of branch `name`. */
  function Click(branchA: string, branchB: string, name: string): (r: (string, string))
    ensures branchA == "" ==> r == (name, branchB)
    ensures branchA == name ==> r == (branchA, branchB)
    ensures branchA != "" && branchA != name ==> r == (branchA, name)
    ensures SlotsDistinct(branchA, branchB) ==> SlotsDistinct(r.0, r.1)
  {
    if branchA == "" || branchA == name then (name, branchB) else (branchA, name)
  }

  /** The slots after a run of clicks, in order. */
  function Clicks(branchA: string, branchB: string, names: seq<string>): (string, string)
    decreases |names|
  {
    if names == [] then (branchA, branchB)
    else
      var (a, b) := Click(branchA, branchB, names[0]);
      Clicks(a, b, names[1..])
  }

  /** A row is highlighted when its branch fills either slot. */
  predicate Highlighted(branchA: string, branchB: string, name: string) {
    branchA == name || branchB == name
  }

  /** The row's caption: "Base (A)" wins over "Compare (B)"; `None` is `undefined`. */
  function Caption(branchA: string, branchB: string, name: string): (r: Option<string>)
    ensures r.Some? <==> Highlighted(branchA, branchB, name)
    ensures branchA == name ==> r == Some("Base (A)")
    ensures branchA != name && branchB == name ==> r == Some("Compare (B)")
  {
    if branchA == name then Some("Base (A)")
    else if branchB == name then Some("Compare (B)")
    else None
  }

  /** The `handleCreateBranch` guard: a repo, a new name and a source branch. */
  predicate CanCreate(repo: Option<Repo>, newBranchName: string, fromBranch: string) {
    repo.Some? && newBranchName != "" && fromBranch != ""
  }

  /** A `createBranchFrom` request: repository full name, new branch, source branch. */
  datatype CreateRequest = CreateRequest(fullName: string, newBranch: string, fromBranch: string)

  /** Either slot stays empty until filled, B only after A, and B never names A's branch. */
  predicate SlotsDistinct(branchA: string, branchB: string) {
    branchB == "" || (branchA != "" && branchB != branchA)
  }

  /** Once filled, slot A is never changed by clicks. */
  lemma {:induction false} ClicksKeepA(branchA: string, branchB: string, names: seq<string>)
    requires branchA != ""
    ensures Clicks(branchA, branchB, names).0 == branchA
    decreases |names|
  {
    if names != [] {
      ClicksKeepA(branchA, Click(branchA, branchB, names[0]).1, names[1..]);
    }
  }

  /** Any run of clicks keeps the slots distinct. */
  lemma {:induction false} ClicksKeepDistinct(branchA: string, branchB: string, names: seq<string>)
    requires SlotsDistinct(branchA, branchB)
    ensures var (a, b) := Clicks(branchA, branchB, names); SlotsDistinct(a, b)
    decreases |names|
  {
    if names != [] {
      var (a, b) := Click(branchA, branchB, names[0]);
      ClicksKeepDistinct(a, b, names[1..]);
    }
  }

  /**
   * Starting from two empty slots, clicks alone leave slots that the
   * branch comparison of src/App.jsx accepts exactly when a repository is
   * chosen and slot B is filled.
   */
  lemma ClicksReadyToCompare(repo: Option<Repo>, names: seq<string>)
    ensures var (a, b) := Clicks("", "", names);
      App.CanCompare(repo, a, b) <==> repo.Some? && b != ""
  {
    ClicksKeepDistinct("", "", names);
  }

  /** The picker's own state and the requests and messages it produces. */
  class Picker {
    var branchA: string
    var branchB: string
    var branches: seq<string>
    var newBranchName: string
    var fromBranch: string
    /** The `createBranchFrom` requests sent so far, oldest first. */
    var requests: seq<CreateRequest>
    /** The message of the last snackbar opened. */
    var snack: Option<string>

    constructor()
      ensures branchA == "" && branchB == "" && branches == []
      ensures newBranchName == "" && fromBranch == "" && requests == [] && snack == None
    {
      branchA := "";
      branchB := "";
      branches := [];
      newBranchName := "";
      fromBranch := "";
      requests := [];
      snack := None;
    }

    /** The `onClick` of a branch row. */
    method ClickBranch(name: string)
      modifies this
      ensures (branchA, branchB) == Click(old(branchA), old(branchB), name)
      ensures old(branchA) != "" ==> branchA == old(branchA)
      ensures branchB != old(branchB) ==> branchB != branchA
      ensures branches == old(branches) && newBranchName == old(newBranchName) && fromBranch == old(fromBranch)
      ensures requests == old(requests) && snack == old(snack)
    {
      if branchA == "" || branchA == name {
        branchA := name;
      } else {
        branchB := name;
      }
    }

    /**
     * `handleCreateBranch`, given the outcome of the two remote calls: the
     * refreshed branch list, or the message of whichever call threw.
     */
    method CreateBranch(repo: Option<Repo>, outcome: Result<seq<string>, string>)
      modifies this
      ensures !CanCreate(repo, old(newBranchName), old(fromBranch)) ==> unchanged(this)
      ensures branchA == old(branchA) && branchB == old(branchB) && fromBranch == old(fromBranch)
      ensures CanCreate(repo, old(newBranchName), old(fromBranch)) ==>
        requests == old(requests) + [CreateRequest(repo.value.fullName, old(newBranchName), old(fromBranch))]
      ensures CanCreate(repo, old(newBranchName), old(fromBranch)) && outcome.Success? ==>
        && branches == outcome.value && newBranchName == ""
        && snack == Some(CreatedPrefix + old(newBranchName) + CreatedSuffix)
      ensures CanCreate(repo, old(newBranchName), old(fromBranch)) && outcome.Failure? ==>
        && branches == old(branches) && newBranchName == old(newBranchName)
        && snack == Some(CreateFailedPrefix + outcome.error)
    {
      if repo.None? || newBranchName == "" || fromBranch == "" {
        return;
      }
      requests := requests + [CreateRequest(repo.value.fullName, newBranchName, fromBranch)];
      match outcome {
        case Success(updated) =>
          branches := updated;
          snack := Some(CreatedPrefix + newBranchName + CreatedSuffix);
          newBranchName := "";
        case Failure(message) =>
          snack := Some(CreateFailedPrefix + message);
      }
    }
  }
}
