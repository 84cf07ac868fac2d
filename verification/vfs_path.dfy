/** Absolute path building: a loop over a character buffer, against the fold of its components. */
module VfsPath {

  const MAX_PATH: nat := 512 // NX_VFS_MAX_PATH

  datatype Option<T> = None | Some(value: T)

  datatype Error = NoRes | Inval

  datatype Result = Ok(path: string) | Err(error: Error)

  // ----- strings -----

  /** NX_StrChr: position of the first occurrence, the length if there is none. */
  function Find(s: string, c: char): (p: nat)
    ensures p <= |s| && (p < |s| ==> s[p] == c) && forall i :: 0 <= i < p ==> s[i] != c
  {
    if s == [] || s[0] == c then 0 else
    var p := Find(s[1..], c);
    assert forall i :: 1 <= i < p + 1 ==> s[i] == s[1..][i - 1];
    p + 1
  }

  /** NX_StrChrReverse: one past the last occurrence, 0 if there is none. */
  function AfterLast(s: string, c: char): (p: nat)
    ensures p <= |s| && (p > 0 ==> s[p - 1] == c) && forall i :: p <= i < |s| ==> s[i] != c
  {
    if s == [] then 0
    else if s[|s| - 1] == c then |s|
    else AfterLast(s[..|s| - 1], c)
  }

  function Split(s: string): (r: seq<string>)
    ensures r != []
    decreases |s|
  {
    var p := Find(s, '/');
    if p == |s| then [s] else [s[..p]] + Split(s[p + 1..])
  }

  predicate NoSlash(c: string) {
    '/' !in c
  }

  /** Components of a built path: no separator, not empty, not "." or "..". */
  predicate CleanComponent(c: string) {
    NoSlash(c) && c != "" && c != "." && c != ".."
  }

  predicate Clean(stack: seq<string>) {
    forall i :: 0 <= i < |stack| ==> CleanComponent(stack[i])
  }

  /** A directory path, with its trailing separator. */
  function RenderDir(stack: seq<string>): string {
    if stack == [] then "/" else RenderDir(stack[..|stack| - 1]) + stack[|stack| - 1] + "/"
  }

  /** The path proper: no trailing separator except for the root. */
  function Render(stack: seq<string>): string {
    if stack == [] then "/" else RenderDir(stack[..|stack| - 1]) + stack[|stack| - 1]
  }

  // ----- the meaning: a fold over components -----

  function Apply(stack: seq<string>, token: string): seq<string> {
    if token == "" || token == "." then stack
    else if token == ".." then (if stack == [] then [] else stack[..|stack| - 1])
    else stack + [token]
  }

  function Fold(stack: seq<string>, tokens: seq<string>): seq<string>
    decreases |tokens|
  {
    if tokens == [] then stack else Fold(Apply(stack, tokens[0]), tokens[1..])
  }

  predicate Plain(token: string) {
    token != "" && token != "." && token != ".."
  }

  /** Whether the buffer is long enough for one more component, appended after a separator. */
  predicate StepFits(stack: seq<string>, slash: bool, token: string) {
    && (slash || stack == [] || |Render(stack)| + 1 < MAX_PATH)
    && (Plain(token) ==> |RenderDir(stack)| + |token| < MAX_PATH)
  }

  predicate FitsAll(stack: seq<string>, slash: bool, tokens: seq<string>)
    decreases |tokens|
  {
    tokens == [] ||
    (StepFits(stack, slash, tokens[0]) && FitsAll(Apply(stack, tokens[0]), !Plain(tokens[0]), tokens[1..]))
  }

  /** What the buffer holds: a directory path when it ends in a separator, else the path proper. */
  function Buffer(stack: seq<string>, slash: bool): string {
    if slash then RenderDir(stack) else Render(stack)
  }

  lemma {:induction false} RenderEnds(stack: seq<string>)
    requires Clean(stack)
    ensures Render(stack) != [] && Render(stack)[0] == '/' && RenderDir(stack)[0] == '/'
    ensures RenderDir(stack) == if stack == [] then Render(stack) else Render(stack) + "/"
    ensures stack != [] ==> Render(stack)[|Render(stack)| - 1] != '/' && |Render(stack)| > 1
  {
    hide RenderDir, Render, CleanComponent;
    RenderStep(stack);
    if stack != [] {
      var init, last := stack[..|stack| - 1], stack[|stack| - 1];
      EndsPlain(last);
      RenderEnds(init);
      assert Render(stack)[0] == RenderDir(init)[0];
    }
  }

  lemma RenderStep(stack: seq<string>)
    ensures stack == [] ==> Render(stack) == RenderDir(stack) == "/"
    ensures stack != [] ==> var init, last := stack[..|stack| - 1], stack[|stack| - 1];
      Render(stack) == RenderDir(init) + last && RenderDir(stack) == Render(stack) + "/"
  {
  }

  lemma EndsPlain(c: string)
    requires CleanComponent(c)
    ensures c != "" && c[|c| - 1] != '/'
  {
    assert c[|c| - 1] in c;
  }

  lemma {:induction false} AfterLastOfJoin(dir: string, c: string)
    requires dir != [] && dir[|dir| - 1] == '/' && NoSlash(c)
    ensures AfterLast(dir + c, '/') == |dir|
  {
    assert (dir + c)[|dir| - 1] == '/';
    assert forall i :: |dir| <= i < |dir| + |c| ==> (dir + c)[i] == c[i - |dir|];
  }

  /** Dropping the last component: cut at the separator before it. */
  lemma ParentOf(stack: seq<string>)
    requires Clean(stack) && stack != []
    ensures Render(stack)[..AfterLast(Render(stack), '/')] == RenderDir(stack[..|stack| - 1])
    ensures AfterLast(Render(stack), '/') > 0
  {
    var init := stack[..|stack| - 1];
    RenderEnds(init);
    assert CleanComponent(stack[|stack| - 1]);
    AfterLastOfJoin(RenderDir(init), stack[|stack| - 1]);
  }

  lemma ApplyKeepsClean(stack: seq<string>, token: string)
    requires Clean(stack) && NoSlash(token)
    ensures Clean(Apply(stack, token))
  {
  }

  lemma {:induction false} FoldKeepsClean(stack: seq<string>, tokens: seq<string>)
    requires Clean(stack) && forall i :: 0 <= i < |tokens| ==> NoSlash(tokens[i])
    ensures Clean(Fold(stack, tokens))
    decreases |tokens|
  {
    if tokens != [] {
      assert NoSlash(tokens[0]);
      FoldKeepsClean(Apply(stack, tokens[0]), tokens[1..]);
    }
  }

  lemma SplitStep(s: string)
    ensures Split(s)[0] == s[..Find(s, '/')]
    ensures Split(s)[1..] == if Find(s, '/') == |s| then [] else Split(s[Find(s, '/') + 1..])
  {
    SplitUnfolds(s);
    hide Split, Find;
    var p := Find(s, '/');
    if p == |s| {
      assert s[..p] == s;
    } else {
      assert Split(s)[1..] == Split(s[p + 1..]);
    }
  }

  lemma SplitUnfolds(s: string)
    ensures var p := Find(s, '/'); Split(s) == if p == |s| then [s] else [s[..p]] + Split(s[p + 1..])
  {
    hide Find;
  }

  lemma {:induction false} SplitHasNoSlash(s: string)
    ensures forall i :: 0 <= i < |Split(s)| ==> NoSlash(Split(s)[i])
    decreases |s|
  {
    var p := Find(s, '/');
    if p < |s| {
      SplitHasNoSlash(s[p + 1..]);
    }
  }

  lemma FitsStep(stack: seq<string>, slash: bool, tokens: seq<string>)
    requires tokens != []
    ensures FitsAll(stack, slash, tokens) <==>
      StepFits(stack, slash, tokens[0]) && FitsAll(Apply(stack, tokens[0]), !Plain(tokens[0]), tokens[1..])
    ensures Fold(stack, tokens) == Fold(Apply(stack, tokens[0]), tokens[1..])
  {
  }

  // ----- the code -----

  predicate Absolute(path: string) {
    path != "" && path[0] == '/'
  }

  /** The stack a path starts from: the root for an absolute one, else the working directory. */
  function StartOf(path: string, cwd: seq<string>): seq<string> {
    if Absolute(path) then [] else cwd
  }

  function LeftOf(path: string): string {
    if Absolute(path) then path[1..] else path
  }

  function TokensOf(path: string): seq<string> {
    if LeftOf(path) == "" then [] else Split(LeftOf(path))
  }

  function Meaning(path: string, cwd: seq<string>): seq<string> {
    Fold(StartOf(path, cwd), TokensOf(path))
  }

  predicate Buildable(path: string, cwd: seq<string>) {
    |LeftOf(path)| < MAX_PATH && FitsAll(StartOf(path, cwd), StartOf(path, cwd) == [], TokensOf(path))
  }

  /** The part of the loop after a component has been cut off: what is done to the buffer. */
  method AppendToken(buffer: string, token: string, ghost stack: seq<string>, ghost slash: bool) returns (r: Result)
    requires Clean(stack) && NoSlash(token) && buffer == Buffer(stack, slash)
    ensures r == if StepFits(stack, slash, token) then Ok(Buffer(Apply(stack, token), !Plain(token))) else Err(Inval)
    ensures |buffer| < MAX_PATH && r.Ok? ==> |r.path| < MAX_PATH
  {
    hide RenderDir, Render, AfterLast, Clean, NoSlash;
    var absPath := buffer;
    RenderEnds(stack);
    RenderStep(stack);
    RenderStep(stack + [token]);
    if absPath[|absPath| - 1] != '/' {
      if |absPath| + 1 >= MAX_PATH {
        return Err(Inval);
      }
      absPath := absPath + "/";
    }
    assert absPath == RenderDir(stack);
    if token == "" || token == "." {
      return Ok(absPath);
    }
    if token == ".." {
      if |absPath| > 1 {
        absPath := absPath[..|absPath| - 1];
        ParentOf(stack);
        absPath := absPath[..AfterLast(absPath, '/')];
      }
      return Ok(absPath);
    }
    if |absPath| + |token| >= MAX_PATH {
      return Err(Inval);
    }
    assert (stack + [token])[..|stack|] == stack;
    return Ok(absPath + token);
  }

  /** NX_VfsBuildAbsPath. The working directory is None for a kernel thread; otherwise it is the rendering of
      `cwd`, as every earlier call produced it. leftLen is not reduced for the separators passed, so it bounds
      the text in `left` only from above, and does not drop on an empty component. */
  method BuildAbsPath(path: string, ghost cwd: seq<string>, cwdText: Option<string>) returns (r: Result)
    requires cwdText.Some? ==> Clean(cwd) && cwdText.value == Render(cwd) && |cwdText.value| < MAX_PATH
    ensures r == Err(NoRes) <==> cwdText.None? && !Absolute(path)
    ensures r != Err(NoRes) ==> (r.Ok? <==> Buildable(path, cwd))
    ensures r.Ok? ==> Clean(Meaning(path, cwd)) && r.path == Render(Meaning(path, cwd)) && |r.path| < MAX_PATH
  {
    hide RenderDir, Render, Apply, StepFits, Split, Find, NoSlash, Plain;
    var absPath, left: string;
    if path != "" && path[0] == '/' {
      absPath := "/";
      RootText();
      if |path| == 1 {
        return Ok(absPath);
      }
      left := path[1..];
    } else {
      if cwdText.None? {
        return Err(NoRes);
      }
      absPath := cwdText.value;
      left := path;
      RootText();
    }
    var leftLen: nat := |left|;
    if leftLen >= MAX_PATH {
      return Err(Inval);
    }
    ghost var stack, slash, tokens := StartOf(path, cwd), StartOf(path, cwd) == [], TokensOf(path);
    SplitHasNoSlash(left);
    FoldKeepsClean(stack, tokens);
    while leftLen != 0
      invariant leftLen != 0 ==> |left| <= leftLen && tokens == Split(left)
      invariant leftLen == 0 ==> tokens == []
      invariant forall i :: 0 <= i < |tokens| ==> NoSlash(tokens[i])
      invariant Clean(stack) && absPath == Buffer(stack, slash) && |absPath| < MAX_PATH
      invariant FitsAll(stack, slash, tokens) == Buildable(path, cwd) && Fold(stack, tokens) == Meaning(path, cwd)
      decreases if leftLen == 0 then 0 else |left| + 1
    {
      var p := Find(left, '/');
      var token := left[..p];
      SplitStep(left);
      if p < |left| {
        leftLen := leftLen - p;
        left := left[p + 1..];
      } else {
        leftLen := 0; // everything up to leftLen is taken as the last component
      }
      FitsStep(stack, slash, tokens);
      var appended := AppendToken(absPath, token, stack, slash);
      if appended.Err? {
        return appended;
      }
      absPath := appended.path;
      ApplyKeepsClean(stack, token);
      stack, slash, tokens := Apply(stack, token), !Plain(token), tokens[1..];
    }
    RenderEnds(stack);
    if |absPath| > 1 && absPath[|absPath| - 1] == '/' {
      absPath := absPath[..|absPath| - 1];
    }
    return Ok(absPath);
  }

  lemma RootText()
    ensures Render([]) == "/" && RenderDir([]) == "/"
  {
  }

  // ----- building again -----

  lemma {:induction false} FindOfJoin(c: string, rest: string)
    requires NoSlash(c)
    ensures Find(c + "/" + rest, '/') == |c| && Find(c, '/') == |c|
  {
    hide Find;
    var s := c + "/" + rest;
    assert s[|c|] == '/';
    assert forall i :: 0 <= i < |c| ==> s[i] == c[i];
  }

  lemma {:induction false} SplitOfJoin(c: string, rest: string)
    requires NoSlash(c)
    ensures Split(c + "/" + rest) == [c] + Split(rest)
    ensures Split(c) == [c]
  {
    hide Find;
    FindOfJoin(c, rest);
    var s := c + "/" + rest;
    assert s[..|c|] == c && s[|c| + 1..] == rest;
  }

  /** Splitting a text that ends in a component gives that component last. */
  lemma {:induction false} SplitOfAppend(s: string, c: string)
    requires NoSlash(c)
    ensures Split(s + "/" + c) == Split(s) + [c]
    decreases |s|
  {
    hide Split;
    var p := Find(s, '/');
    SplitOfJoin(c, "");
    if p == |s| {
      SplitOfJoin(s, c);
    } else {
      var first, rest := s[..p], s[p + 1..];
      SplitOfAppend(rest, c);
      SplitOfJoin(first, rest);
      SplitOfJoin(first, rest + "/" + c);
      assert s == first + "/" + rest;
      assert s + "/" + c == first + "/" + (rest + "/" + c);
    }
  }

  lemma TailOfRender(stack: seq<string>)
    requires Clean(stack) && stack != []
    ensures Render(stack) != [] && Render(stack)[0] == '/'
    ensures Render(stack)[1..] ==
      if |stack| == 1 then stack[0]
      else Render(stack[..|stack| - 1])[1..] + "/" + stack[|stack| - 1]
  {
    var init, last := stack[..|stack| - 1], stack[|stack| - 1];
    RenderEnds(stack);
    RenderEnds(init);
    if |stack| > 1 {
      assert Render(stack) == Render(init) + "/" + last;
    } else {
      assert Render(stack) == "/" + last;
    }
  }

  lemma {:induction false} SplitOfRender(stack: seq<string>)
    requires Clean(stack) && stack != []
    ensures Render(stack) != [] && Render(stack)[0] == '/' && Split(Render(stack)[1..]) == stack
    decreases |stack|
  {
    hide Split, Render, RenderDir;
    var init, last := stack[..|stack| - 1], stack[|stack| - 1];
    assert CleanComponent(last);
    TailOfRender(stack);
    if |stack| == 1 {
      SplitOfJoin(last, "");
    } else {
      SplitOfRender(init);
      SplitOfAppend(Render(init)[1..], last);
    }
  }

  lemma {:induction false} FoldOfClean(stack: seq<string>, tokens: seq<string>)
    requires Clean(tokens)
    ensures Fold(stack, tokens) == stack + tokens
    decreases |tokens|
  {
    if tokens != [] {
      assert CleanComponent(tokens[0]);
      FoldOfClean(stack + [tokens[0]], tokens[1..]);
    }
  }

  lemma {:induction false} RenderGrows(stack: seq<string>, more: seq<string>)
    ensures |Render(stack)| <= |Render(stack + more)|
    decreases |more|
  {
    if more == [] {
      assert stack + more == stack;
    } else {
      var init := more[..|more| - 1];
      RenderGrows(stack, init);
      assert (stack + more)[..|stack + more| - 1] == stack + init;
    }
  }

  lemma {:induction false} CleanFits(stack: seq<string>, slash: bool, tokens: seq<string>)
    requires Clean(stack) && Clean(tokens) && |Render(stack + tokens)| < MAX_PATH
    ensures FitsAll(stack, slash, tokens)
    decreases |tokens|
  {
    hide FitsAll, Render, RenderDir;
    if tokens == [] {
      FitsNothing(stack, slash);
    } else {
      var token := tokens[0];
      assert CleanComponent(token);
      assert stack + tokens == stack + [token] + tokens[1..];
      RenderPush(stack, token);
      RenderGrows(stack + [token], tokens[1..]);
      CleanFits(stack + [token], false, tokens[1..]);
      FitsStep(stack, slash, tokens);
    }
  }

  lemma FitsNothing(stack: seq<string>, slash: bool)
    ensures FitsAll(stack, slash, [])
  {
  }

  lemma RenderPush(stack: seq<string>, token: string)
    requires Clean(stack)
    ensures Render(stack + [token]) == RenderDir(stack) + token
    ensures stack != [] ==> |RenderDir(stack)| == |Render(stack)| + 1
  {
    assert (stack + [token])[..|stack|] == stack;
    RenderEnds(stack);
  }

  /** Idempotence: a built path that fits is built again, whatever the working directory, and comes back as it is. */
  lemma BuildTwice(stack: seq<string>, cwd: seq<string>)
    requires Clean(stack) && |Render(stack)| < MAX_PATH
    ensures Absolute(Render(stack)) && Buildable(Render(stack), cwd)
    ensures Meaning(Render(stack), cwd) == stack
  {
    RenderEnds(stack);
    if stack != [] {
      SplitOfRender(stack);
      FoldOfClean([], stack);
      assert [] + stack == stack;
      CleanFits([], true, stack);
    }
  }

  /** What a caller sees of a built path: absolute, no separator at the end or twice in a row, no dots left. */
  lemma BuiltShape(stack: seq<string>)
    requires Clean(stack)
    ensures Render(stack)[0] == '/'
    ensures Render(stack) == "/" || Render(stack)[|Render(stack)| - 1] != '/'
    ensures Render(stack) != "/" ==> Clean(Split(Render(stack)[1..]))
  {
    RenderEnds(stack);
    if stack != [] {
      SplitOfRender(stack);
    }
  }

  /** Two clean stacks render to the same text only when they are the same. */
  lemma RenderIsInjective(a: seq<string>, b: seq<string>)
    requires Clean(a) && Clean(b) && Render(a) == Render(b)
    ensures a == b
  {
    RenderEnds(a);
    RenderEnds(b);
    if a != [] {
      SplitOfRender(a);
    }
    if b != [] {
      SplitOfRender(b);
    }
  }

  /** ".." undoes any plain component, and does nothing at the root. */
  lemma ParentUndoes(stack: seq<string>, token: string)
    requires Plain(token)
    ensures Fold(stack, [token, ".."]) == stack && Fold([], [".."]) == []
  {
    assert [token, ".."][1..] == [".."];
    assert Fold(stack, [token, ".."]) == Fold(stack + [token], [".."]);
    assert Fold(stack + [token], [".."]) == Fold(stack, []);
  }

  // ----- what the components mean -----

  lemma {:induction false} FoldOfAppend(stack: seq<string>, a: seq<string>, b: seq<string>)
    ensures Fold(stack, a + b) == Fold(Fold(stack, a), b)
    decreases |a|
  {
    if a == [] {
      assert a + b == b;
    } else {
      assert (a + b)[1..] == a[1..] + b;
      FoldOfAppend(Apply(stack, a[0]), a[1..], b);
    }
  }

  /** Empty components and "." change nothing, wherever they stand. */
  lemma NeutralAnywhere(stack: seq<string>, a: seq<string>, b: seq<string>)
    ensures Fold(stack, a + ["."] + b) == Fold(stack, a + b)
    ensures Fold(stack, a + [""] + b) == Fold(stack, a + b)
  {
    FoldOfAppend(stack, a + ["."], b);
    FoldOfAppend(stack, a + [""], b);
    FoldOfAppend(stack, a, ["."]);
    FoldOfAppend(stack, a, [""]);
    FoldOfAppend(stack, a, b);
  }

  /** A plain component and ".." after it change nothing; without one, ".." drops the last of what there was. */
  lemma ParentAnywhere(stack: seq<string>, a: seq<string>, token: string, b: seq<string>)
    requires Plain(token)
    ensures Fold(stack, a + [token, ".."] + b) == Fold(stack, a + b)
    ensures Fold(stack, a + [token]) == Fold(stack, a) + [token]
    ensures Fold(stack + [token], [".."] + b) == Fold(stack, b)
    ensures Fold([], [".."] + b) == Fold([], b)
  {
    FoldOfAppend(stack, a + [token, ".."], b);
    FoldOfAppend(stack, a, [token, ".."]);
    FoldOfAppend(stack, a, [token]);
    FoldOfAppend(stack, a, b);
    FoldOfAppend(stack + [token], [".."], b);
    FoldOfAppend([], [".."], b);
    ParentUndoes(Fold(stack, a), token);
  }

  lemma TokensOfJoin(p: string, q: string)
    requires p != ""
    ensures Absolute(p + "/" + q) == Absolute(p)
    ensures p == "/" ==> TokensOf(p + "/" + q) == [""] + Split(q)
    ensures p != "/" ==> TokensOf(p + "/" + q) == TokensOf(p) + Split(q)
  {
    var s := p + "/" + q;
    assert s[0] == p[0];
    if p == "/" {
      assert s[1..] == "" + "/" + q;
      SplitOfJoin("", q);
    } else if p[0] == '/' {
      assert s[1..] == p[1..] + "/" + q;
      SplitOfConcat(p[1..], q);
    } else {
      SplitOfConcat(p, q);
    }
  }

  /** Cutting a text at one of its separators cuts the list of components there. */
  lemma {:induction false} SplitOfConcat(s: string, q: string)
    ensures Split(s + "/" + q) == Split(s) + Split(q)
    decreases |s|
  {
    hide Split;
    var p := Find(s, '/');
    if p == |s| {
      assert NoSlash(s);
      SplitOfJoin(s, q);
    } else {
      var first, rest := s[..p], s[p + 1..];
      assert NoSlash(first);
      SplitOfConcat(rest, q);
      SplitOfJoin(first, rest);
      SplitOfJoin(first, rest + "/" + q);
      assert s == first + "/" + rest;
      assert s + "/" + q == first + "/" + (rest + "/" + q);
    }
  }

  /** A path continued by further components: they are applied to what the path means. */
  lemma Continued(p: string, q: string, cwd: seq<string>)
    requires p != ""
    ensures Meaning(p + "/" + q, cwd) == Fold(Meaning(p, cwd), Split(q))
  {
    hide Split, Find;
    var start := StartOf(p, cwd);
    TokensOfJoin(p, q);
    if p == "/" {
      FoldOfAppend(start, [""], Split(q));
      assert Fold(start, [""]) == Fold(start, []);
    } else {
      FoldOfAppend(start, TokensOf(p), Split(q));
    }
  }

  /** In texts: doubled separators, "." components and trailing separators are passed over, a plain component is
      appended, ".." takes it back. */
  lemma TextMeaning(p: string, c: string, q: string, cwd: seq<string>)
    requires p != "" && Plain(c) && NoSlash(c)
    ensures Meaning(p + "/" + ".", cwd) == Meaning(p + "/", cwd) == Meaning(p, cwd)
    ensures Meaning(p + "/" + ("." + "/" + q), cwd) == Meaning(p + "/" + q, cwd)
    ensures Meaning(p + "/" + ("" + "/" + q), cwd) == Meaning(p + "/" + q, cwd)
    ensures Meaning(p + "/" + c, cwd) == Meaning(p, cwd) + [c]
    ensures Meaning(p + "/" + (c + "/" + (".." + "/" + q)), cwd) == Meaning(p + "/" + q, cwd)
  {
    hide Split, Find, Fold, Meaning;
    var m, none: seq<string> := Meaning(p, cwd), [];
    assert none + none == none;
    assert p + "/" == p + "/" + "";
    Continued(p, ".", cwd);
    Continued(p, "", cwd);
    Continued(p, q, cwd);
    Continued(p, c, cwd);
    Continued(p, "." + "/" + q, cwd);
    Continued(p, "" + "/" + q, cwd);
    Continued(p, c + "/" + (".." + "/" + q), cwd);
    SplitOfJoin(".", q);
    SplitOfJoin("", q);
    SplitOfJoin("..", q);
    SplitOfJoin(c, ".." + "/" + q);
    assert [c] + ([".."] + Split(q)) == [] + [c, ".."] + Split(q);
    assert ["."] + Split(q) == [] + ["."] + Split(q) && [""] + Split(q) == [] + [""] + Split(q);
    assert [] + Split(q) == Split(q) && [] + [c] == [c];
    NeutralAnywhere(m, [], Split(q));
    NeutralAnywhere(m, none, none);
    assert [] + ["."] + [] == ["."] && [] + [""] + [] == [""];
    ParentAnywhere(m, [], c, Split(q));
    FoldOfNothing(m);
  }

  lemma FoldOfNothing(stack: seq<string>)
    ensures Fold(stack, []) == stack
  {
  }

  /** The components of a text, joined by separators, give the text again. */
  function Joined(tokens: seq<string>): string
    requires tokens != []
  {
    if |tokens| == 1 then tokens[0] else tokens[0] + "/" + Joined(tokens[1..])
  }

  lemma {:induction false} JoinedSplit(s: string)
    ensures Joined(Split(s)) == s && forall i :: 0 <= i < |Split(s)| ==> NoSlash(Split(s)[i])
    decreases |s|
  {
    SplitHasNoSlash(s);
    var p := Find(s, '/');
    if p < |s| {
      JoinedSplit(s[p + 1..]);
      assert Split(s)[1..] == Split(s[p + 1..]);
      assert s == s[..p] + "/" + s[p + 1..];
    }
  }

  /** Whether the buffer ends in a separator after the components `done`. */
  predicate EndsInSlash(start: seq<string>, done: seq<string>) {
    Fold(start, done) == [] || (done != [] && !Plain(done[|done| - 1]))
  }

  /** The texts that are written for one more component after `done`: the separator if the buffer does not end in one,
      and a plain component behind it. */
  predicate RoomAfter(start: seq<string>, done: seq<string>, token: string) {
    var stack := Fold(start, done);
    && (EndsInSlash(start, done) || |Render(stack) + "/"| < MAX_PATH)
    && (token != "" && token != "." && token != ".." ==> |RenderDir(stack) + token| < MAX_PATH)
  }

  ghost predicate RoomThroughout(start: seq<string>, done: seq<string>, tokens: seq<string>) {
    forall k :: 0 <= k < |tokens| ==> RoomAfter(start, done + tokens[..k], tokens[k])
  }

  lemma RoomStep(start: seq<string>, done: seq<string>, tokens: seq<string>)
    requires tokens != []
    ensures RoomThroughout(start, done, tokens) <==>
      RoomAfter(start, done, tokens[0]) && RoomThroughout(start, done + [tokens[0]], tokens[1..])
  {
    hide RoomAfter;
    var more, rest := done + [tokens[0]], tokens[1..];
    assert done + tokens[..0] == done;
    forall k | 1 <= k < |tokens| ensures done + tokens[..k] == more + rest[..k - 1] && tokens[k] == rest[k - 1] {
    }
    if RoomThroughout(start, done, tokens) {
      assert RoomAfter(start, done + tokens[..0], tokens[0]);
      forall k | 0 <= k < |rest| ensures RoomAfter(start, more + rest[..k], rest[k]) {
        assert RoomAfter(start, done + tokens[..k + 1], tokens[k + 1]);
      }
    }
  }

  lemma {:induction false} FitsExactly(start: seq<string>, done: seq<string>, tokens: seq<string>)
    ensures FitsAll(Fold(start, done), EndsInSlash(start, done), tokens) <==> RoomThroughout(start, done, tokens)
    decreases |tokens|
  {
    hide FitsAll, RoomThroughout, Fold, Render, RenderDir;
    var stack := Fold(start, done);
    if tokens == [] {
      FitsNothing(stack, EndsInSlash(start, done));
      NoRoomNeeded(start, done);
    } else {
      var more := done + [tokens[0]];
      FoldOfAppend(start, done, [tokens[0]]);
      FoldOfOne(stack, tokens[0]);
      FitsExactly(start, more, tokens[1..]);
      RoomStep(start, done, tokens);
      FitsStep(stack, EndsInSlash(start, done), tokens);
      SlashAtRoot(Fold(start, more), !Plain(tokens[0]), tokens[1..]);
    }
  }

  lemma NoRoomNeeded(start: seq<string>, done: seq<string>)
    ensures RoomThroughout(start, done, [])
  {
  }

  lemma FoldOfOne(stack: seq<string>, token: string)
    ensures Fold(stack, [token]) == Apply(stack, token)
  {
  }

  lemma SlashAtRoot(stack: seq<string>, slash: bool, tokens: seq<string>)
    ensures FitsAll(stack, slash, tokens) <==> FitsAll(stack, stack == [] || slash, tokens)
  {
  }

  /** Exactly when building succeeds: when every text written on the way is shorter than the buffer. */
  lemma BuildableExactly(path: string, cwd: seq<string>)
    ensures var start, tokens := StartOf(path, cwd), TokensOf(path);
      Buildable(path, cwd) <==>
        |LeftOf(path)| < MAX_PATH && forall k :: 0 <= k < |tokens| ==> RoomAfter(start, tokens[..k], tokens[k])
  {
    var start, tokens := StartOf(path, cwd), TokensOf(path);
    FitsExactly(start, [], tokens);
    FoldOfNothing(start);
    forall k | 0 <= k < |tokens| ensures [] + tokens[..k] == tokens[..k] {
    }
  }
}
