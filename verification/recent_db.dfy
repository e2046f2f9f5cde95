/**
  The recent-documents list (core/recent_db.py): a JSON list of paths,
  most recent first. `Add` stands for `get_all` followed by the insertion
  and the write; a path already listed leaves the file untouched.
 */
module RecentDb {

  /** No path appears twice. */
  predicate NoDuplicates(docs: seq<string>) {
    forall i, j :: 0 <= i < j < |docs| ==> docs[i] != docs[j]
  }

  /** `add(path)`: insert at the front unless already present. */
  function Add(docs: seq<string>, p: string): (r: seq<string>)
    ensures p in r && (p !in docs ==> r[0] == p)
    ensures forall d :: d in r <==> d in docs || d == p
    ensures |docs| <= |r| <= |docs| + 1
    ensures r[|r| - |docs|..] == docs
    ensures p in docs ==> r == docs
    ensures p !in docs ==> |r| == |docs| + 1
  {
    if p in docs then docs else [p] + docs
  }

  /** Adding the same path twice is adding it once. */
  lemma AddIdempotent(docs: seq<string>, p: string)
    ensures Add(Add(docs, p), p) == Add(docs, p)
  {
  }

  /** Adding never introduces a duplicate. */
  lemma AddKeepsNoDuplicates(docs: seq<string>, p: string)
    requires NoDuplicates(docs)
    ensures NoDuplicates(Add(docs, p))
  {
    var r := Add(docs, p);
    if p !in docs {
      forall i, j | 0 <= i < j < |r| ensures r[i] != r[j] {
        if i == 0 {
          assert r[j] == docs[j - 1];
        } else {
          assert r[i] == docs[i - 1] && r[j] == docs[j - 1];
        }
      }
    }
  }

  /** `add` over a sequence of visited paths, oldest first. */
  function AddAll(docs: seq<string>, visited: seq<string>): (r: seq<string>)
    decreases |visited|
  {
    if |visited| == 0 then docs
    else Add(AddAll(docs, visited[..|visited| - 1]), visited[|visited| - 1])
  }

  /** Every visited path is listed, and nothing else is added. */
  lemma {:induction false} AddAllMembers(docs: seq<string>, visited: seq<string>)
    ensures forall d :: d in AddAll(docs, visited) <==> d in docs || d in visited
    decreases |visited|
  {
    if |visited| > 0 {
      var n := |visited| - 1;
      AddAllMembers(docs, visited[..n]);
      assert visited == visited[..n] + [visited[n]];
    }
  }

  /** Nothing is listed twice. */
  lemma {:induction false} AddAllNoDuplicates(docs: seq<string>, visited: seq<string>)
    requires NoDuplicates(docs)
    ensures NoDuplicates(AddAll(docs, visited))
    decreases |visited|
  {
    if |visited| > 0 {
      var n := |visited| - 1;
      AddAllNoDuplicates(docs, visited[..n]);
      AddKeepsNoDuplicates(AddAll(docs, visited[..n]), visited[n]);
    }
  }

  /**
    Whatever paths are visited: every one is listed, nothing is listed
    twice, nothing else is added, and the last one visited is first when it
    had not been listed or visited before.
   */
  lemma AddAllLists(docs: seq<string>, visited: seq<string>)
    requires NoDuplicates(docs)
    ensures NoDuplicates(AddAll(docs, visited))
    ensures forall d :: d in AddAll(docs, visited) <==> d in docs || d in visited
    ensures |visited| > 0 && visited[|visited| - 1] !in docs + visited[..|visited| - 1]
            ==> AddAll(docs, visited)[0] == visited[|visited| - 1]
  {
    AddAllNoDuplicates(docs, visited);
    AddAllMembers(docs, visited);
    if |visited| > 0 {
      var n := |visited| - 1;
      AddAllMembers(docs, visited[..n]);
    }
  }
}
