/** The stable identity of an operation: backend/app/services/schema_sync.py, compute_operation_id.
    sha256 is idealised as injective, so the digest is represented by the string that is digested. */
module OperationIdentity {
  import opened Prelude

  const KNOWN_METHODS: set<string> := {"get", "post", "put", "patch", "delete", "options", "head"}

  function LowerChar(c: char): char {
    if 'A' <= c <= 'Z' then c + 32 as char else c
  }

  function UpperChar(c: char): char {
    if 'a' <= c <= 'z' then c - 32 as char else c
  }

  function Lower(s: string): string {
    seq(|s|, i requires 0 <= i < |s| => LowerChar(s[i]))
  }

  function Upper(s: string): string {
    seq(|s|, i requires 0 <= i < |s| => UpperChar(s[i]))
  }

  predicate KnownMethod(verb: string) {
    Lower(verb) in KNOWN_METHODS
  }

  /** Python's `value or ''`. */
  function OrEmpty(value: Option<string>): string {
    if value.Some? then value.value else ""
  }

  function ComputeOperationId(verb: string, path: string, openapiOperationId: Option<string>): string {
    Upper(verb) + " " + path + " " + OrEmpty(openapiOperationId)
  }

  lemma UpperFacts(verb: string)
    ensures Upper(Upper(verb)) == Upper(verb)
    ensures Lower(Upper(verb)) == Lower(verb)
  {
  }

  const LETTERS := "abcdefghijklmnopqrstuvwxyz"
  const CAPITALS := "ABCDEFGHIJKLMNOPQRSTUVWXYZ"

  /** Case conversion maps the letters to each other, one by one, and leaves all other characters. */
  lemma {:induction false} CaseExactly(s: string)
    ensures Upper(LETTERS) == CAPITALS && Lower(CAPITALS) == LETTERS
    ensures |Upper(s)| == |Lower(s)| == |s|
    ensures forall i :: 0 <= i < |s| && s[i] !in LETTERS ==> Upper(s)[i] == s[i]
    ensures forall i :: 0 <= i < |s| && s[i] !in CAPITALS ==> Lower(s)[i] == s[i]
  {
    assert forall i :: 0 <= i < 26 ==> LETTERS[i] == 'a' + i as char && CAPITALS[i] == 'A' + i as char;
    forall i | 0 <= i < |s|
      ensures 'a' <= s[i] <= 'z' ==> s[i] in LETTERS
      ensures 'A' <= s[i] <= 'Z' ==> s[i] in CAPITALS
    {
      if 'a' <= s[i] <= 'z' {
        assert LETTERS[s[i] as int - 'a' as int] == s[i];
      }
      if 'A' <= s[i] <= 'Z' {
        assert CAPITALS[s[i] as int - 'A' as int] == s[i];
      }
    }
  }

  /** The accepted methods, in any mixture of cases. */
  lemma {:induction false} KnownMethodsExactly(verb: string)
    ensures KnownMethod(verb) <==> Upper(verb) in {"GET", "POST", "PUT", "PATCH", "DELETE", "OPTIONS", "HEAD"}
  {
    UpperOfLower(verb);
    LowerOfUpper(verb);
    assert Upper("get") == "GET" && Upper("post") == "POST" && Upper("put") == "PUT" && Upper("patch") == "PATCH";
    assert Upper("delete") == "DELETE" && Upper("options") == "OPTIONS" && Upper("head") == "HEAD";
    assert Lower("GET") == "get" && Lower("POST") == "post" && Lower("PUT") == "put" && Lower("PATCH") == "patch";
    assert Lower("DELETE") == "delete" && Lower("OPTIONS") == "options" && Lower("HEAD") == "head";
  }

  lemma {:induction false} UpperOfLower(verb: string)
    ensures Upper(Lower(verb)) == Upper(verb)
  {
  }

  lemma {:induction false} LowerOfUpper(verb: string)
    ensures Lower(Upper(verb)) == Lower(verb)
  {
  }

  lemma KnownMethodHasNoSpace(verb: string)
    requires KnownMethod(verb)
    ensures ' ' !in Upper(verb)
    ensures Lower(verb) != "parameters"
  {
    forall i | 0 <= i < |verb|
      ensures Upper(verb)[i] != ' '
    {
      assert Lower(verb)[i] != ' ' by {
        assert forall m <- KNOWN_METHODS :: ' ' !in m;
      }
    }
    assert |"parameters"| == 10;
  }

  /** Cuts a string at its first space. */
  function SplitAtSpace(s: string): (r: (string, string))
    ensures ' ' in s ==> s == r.0 + " " + r.1
    ensures ' ' !in r.0
  {
    if s == "" then ("", "")
    else if s[0] == ' ' then ("", s[1..])
    else
      var (left, right) := SplitAtSpace(s[1..]);
      ([s[0]] + left, right)
  }

  lemma {:induction false} SplitOfJoined(left: string, right: string)
    requires ' ' !in left
    ensures SplitAtSpace(left + " " + right) == (left, right)
  {
    var s := left + " " + right;
    if left == "" {
      assert s[1..] == right;
    } else {
      assert s[1..] == left[1..] + " " + right;
      SplitOfJoined(left[1..], right);
      assert [s[0]] + left[1..] == left;
    }
  }

  /** Reads "METHOD path operationId" back. */
  function ParseOperationId(id: string): (string, string, string) {
    var (verb, rest) := SplitAtSpace(id);
    var (path, operationId) := SplitAtSpace(rest);
    (verb, path, operationId)
  }

  lemma IdentityRoundTrip(verb: string, path: string, openapiOperationId: Option<string>)
    requires KnownMethod(verb) && ' ' !in path
    ensures ParseOperationId(ComputeOperationId(verb, path, openapiOperationId))
         == (Upper(verb), path, if openapiOperationId.Some? then openapiOperationId.value else "")
  {
    KnownMethodHasNoSpace(verb);
    var rest := path + " " + OrEmpty(openapiOperationId);
    assert ComputeOperationId(verb, path, openapiOperationId) == Upper(verb) + " " + rest;
    SplitOfJoined(Upper(verb), rest);
    SplitOfJoined(path, OrEmpty(openapiOperationId));
  }

  /** Equal ids mean the same endpoint, for paths without a space. */
  lemma IdentityIsInjective(m1: string, p1: string, o1: Option<string>, m2: string, p2: string, o2: Option<string>)
    requires KnownMethod(m1) && KnownMethod(m2) && ' ' !in p1 && ' ' !in p2
    requires ComputeOperationId(m1, p1, o1) == ComputeOperationId(m2, p2, o2)
    ensures Upper(m1) == Upper(m2) && p1 == p2 && OrEmpty(o1) == OrEmpty(o2)
  {
    IdentityRoundTrip(m1, p1, o1);
    IdentityRoundTrip(m2, p2, o2);
  }

  /** Another endpoint with the id of the first. */
  ghost predicate SharesId(verb: string, path: string, operationId: string,
                           verb': string, path': string, operationId': string)
  {
    && KnownMethod(verb')
    && (Upper(verb') != Upper(verb) || path' != path || operationId' != operationId)
    && ComputeOperationId(verb', path', Some(operationId')) == ComputeOperationId(verb, path, Some(operationId))
  }

  /** Equal ids mean equal methods, whatever the paths, and equal "path operationId". */
  lemma SameHeadAndTail(verb: string, path: string, operationId: string,
                        verb': string, path': string, operationId': string)
    requires KnownMethod(verb) && KnownMethod(verb')
    requires ComputeOperationId(verb', path', Some(operationId')) == ComputeOperationId(verb, path, Some(operationId))
    ensures Upper(verb) == Upper(verb') && path + " " + operationId == path' + " " + operationId'
  {
    HeadAndTail(verb, path, operationId);
    HeadAndTail(verb', path', operationId');
  }

  lemma HeadAndTail(verb: string, path: string, operationId: string)
    requires KnownMethod(verb)
    ensures SplitAtSpace(ComputeOperationId(verb, path, Some(operationId))) == (Upper(verb), path + " " + operationId)
  {
    var tail := path + " " + operationId;
    KnownMethodHasNoSpace(verb);
    assert ComputeOperationId(verb, path, Some(operationId)) == Upper(verb) + " " + tail;
    SplitOfJoined(Upper(verb), tail);
  }

  lemma SharedTailNeedsSpace(path: string, operationId: string, path': string, operationId': string)
    requires path + " " + operationId == path' + " " + operationId'
    requires path' != path || operationId' != operationId
    ensures ' ' in path || ' ' in operationId
  {
    var s, s' := path + " " + operationId, path' + " " + operationId';
    assert s'[|path'|] == ' ';
    assert path == s[..|path|] && operationId == s[|path| + 1..];
    assert path' == s'[..|path'|] && operationId' == s'[|path'| + 1..];
    if |path'| < |path| {
      assert path[|path'|] == ' ';
    } else {
      assert operationId[|path'| - |path| - 1] == ' ';
    }
  }

  /** The other endpoint, when there is a space: the string is cut at that space instead. */
  lemma SpaceShares(verb: string, path: string, operationId: string) returns (path': string, operationId': string)
    requires KnownMethod(verb) && (' ' in path || ' ' in operationId)
    ensures SharesId(verb, path, operationId, verb, path', operationId')
    ensures path' <= path || path + " " <= path'
  {
    if ' ' in path {
      var i :| 0 <= i < |path| && path[i] == ' ';
      path', operationId' := path[..i], path[i + 1..] + " " + operationId;
      assert path == path' + " " + path[i + 1..];
      assert path' + " " + operationId' == path + " " + operationId;
    } else {
      var i :| 0 <= i < |operationId| && operationId[i] == ' ';
      path', operationId' := path + " " + operationId[..i], operationId[i + 1..];
      assert operationId == operationId[..i] + " " + operationId';
      assert path' + " " + operationId' == path + " " + operationId;
      assert path' == path + (" " + operationId[..i]) && path + " " <= path';
    }
    SharesIdWitness(verb, path, operationId, path', operationId');
  }

  /** Exactly which endpoints can be confused with another: those with a space in the path or the
      operationId. The comment at schema_sync.py:155 excludes the confusion altogether. */
  lemma {:induction false} IdentityAmbiguousIff(verb: string, path: string, operationId: string)
    requires KnownMethod(verb)
    ensures (exists verb', path', operationId' :: SharesId(verb, path, operationId, verb', path', operationId'))
        <==> ' ' in path || ' ' in operationId
  {
    if verb', path', operationId' :| SharesId(verb, path, operationId, verb', path', operationId') {
      SameHeadAndTail(verb, path, operationId, verb', path', operationId');
      SharedTailNeedsSpace(path, operationId, path', operationId');
    } else if ' ' in path || ' ' in operationId {
      var path', operationId' := SpaceShares(verb, path, operationId);
    }
  }

  lemma SharesIdWitness(verb: string, path: string, operationId: string, path': string, operationId': string)
    requires KnownMethod(verb) && path' + " " + operationId' == path + " " + operationId && path' != path
    ensures SharesId(verb, path, operationId, verb, path', operationId')
  {
    var prefix := Upper(verb) + " ";
    assert prefix + path + " " + operationId == prefix + (path + " " + operationId);
    assert prefix + path' + " " + operationId' == prefix + (path' + " " + operationId');
  }

  /** Two different endpoints with one id. */
  lemma SpacedPathsCollide()
    ensures ComputeOperationId("get", "/a", Some("b c")) == ComputeOperationId("get", "/a b", Some("c"))
  {
    assert Upper("get") + " " + "/a" + " " + "b c" == Upper("get") + " " + "/a b" + " " + "c";
  }
}
