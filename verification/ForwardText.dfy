/**
 * The text side of jump reconciliation: FORWARD rules are recognised in the
 * output of `iptables -S` by substring and by token set
 * (qarax-node/src/networking/iptables.rs, sync_forward_jump_rules and rule_matches).
 */
module ForwardText {
  import opened Common
  import opened IptablesKernel
  import opened Validation

  /* ---- chain names ---- */

  predicate IsAlnum(c: char) {
    '0' <= c <= '9' || 'a' <= c <= 'z' || 'A' <= c <= 'Z'
  }

  /** The first `max` ASCII letters and digits of `s`. */
  function SanitizeSuffix(s: string, max: nat): (r: string)
    ensures |r| <= max && forall c :: c in r ==> IsAlnum(c)
  {
    if s == "" || max == 0 then ""
    else if IsAlnum(s[0]) then [s[0]] + SanitizeSuffix(s[1..], max - 1)
    else SanitizeSuffix(s[1..], max)
  }

  function Alnum(): char -> bool {
    (c: char) => 'a' <= c <= 'z' || 'A' <= c <= 'Z' || '0' <= c <= '9'
  }

  /** It is a prefix of all the letters and digits, cut only when there are more than `max`. */
  lemma {:induction false} SanitizeMeans(s: string, max: nat)
    ensures var kept := Filter(s, Alnum());
            SanitizeSuffix(s, max) == if |kept| < max then kept else kept[..max]
  {
    if s != "" && max > 0 {
      var first, rest := [s[0]], s[1..];
      assert s == first + rest;
      FilterConcat(first, rest, Alnum());
      assert first[..0] == "";
      if IsAlnum(s[0]) {
        SanitizeMeans(rest, max - 1);
        assert Filter(s, Alnum()) == first + Filter(rest, Alnum());
      } else {
        SanitizeMeans(rest, max);
        assert Filter(s, Alnum()) == Filter(rest, Alnum());
      }
    }
  }

  /** A parent chain and its two shadow children. */
  datatype Side = Side(parent: string, a: string, b: string)

  function InSide(vm: string): Side {
    var suffix := SanitizeSuffix(vm, 21);
    Side("QXVMI" + suffix, "QXVIA" + suffix, "QXVIB" + suffix)
  }

  function OutSide(vm: string): Side {
    var suffix := SanitizeSuffix(vm, 21);
    Side("QXVMO" + suffix, "QXVOA" + suffix, "QXVOB" + suffix)
  }

  predicate Apart(side: Side, c: string) {
    c != side.parent && c != side.a && c != side.b
  }

  predicate ThreeChains(side: Side) {
    side.parent != side.a && side.parent != side.b && side.a != side.b && Apart(side, FORWARD)
  }

  predicate Distinct(i: Side, o: Side) {
    && ThreeChains(i) && ThreeChains(o)
    && Apart(i, o.parent) && Apart(i, o.a) && Apart(i, o.b)
  }

  lemma NamesDistinct(vm: string)
    ensures Distinct(InSide(vm), OutSide(vm))
  {
    var i, o := InSide(vm), OutSide(vm);
    assert i.parent[..5] == "QXVMI" && i.a[..5] == "QXVIA" && i.b[..5] == "QXVIB";
    assert o.parent[..5] == "QXVMO" && o.a[..5] == "QXVOA" && o.b[..5] == "QXVOB";
    assert "QXVMI"[3] == 'M' && "QXVIA"[3] == 'I' && "QXVMO"[3] == 'M' && "QXVOA"[3] == 'O';
    assert "QXVIB"[3] == 'I' && "QXVOB"[3] == 'O';
    assert "QXVMI"[4] == 'I' && "QXVMO"[4] == 'O' && "QXVIA"[4] == 'A' && "QXVIB"[4] == 'B';
    assert "QXVOA"[4] == 'A' && "QXVOB"[4] == 'B' && FORWARD[0] == 'F' && "QXVMI"[0] == 'Q';
  }

  /* ---- substring search over a printed line ---- */

  predicate ContainsAt(s: string, sub: string, i: nat) {
    i + |sub| <= |s| && s[i..i + |sub|] == sub
  }

  predicate Contains(s: string, sub: string) {
    exists i :: 0 <= i <= |s| && ContainsAt(s, sub, i)
  }

  lemma ContainsMembers(s: string, sub: string)
    ensures Contains(s, sub) ==> forall c :: c in sub ==> c in s
  {
    if i :| 0 <= i <= |s| && ContainsAt(s, sub, i) {
      assert forall k :: 0 <= k < |sub| ==> sub[k] == s[i + k];
    }
  }

  /** The filter applied to each line of `iptables -S FORWARD`, given as its tokens. */
  predicate Mentions(line: seq<string>, parent: string) {
    Contains(Join(line), "-j " + parent)
  }

  predicate SpaceFree(s: string) {
    ' ' !in s
  }

  predicate EndsWith(s: string, tail: string) {
    |s| >= |tail| && s[|s| - |tail|..] == tail
  }

  /** Some token ends in `f` and the text after the next space starts with `p`. */
  predicate Followed(tokens: seq<string>, f: string, p: string) {
    exists k :: 0 <= k < |tokens| - 1 && EndsWith(tokens[k], f) && p <= Join(tokens[k + 1..])
  }

  /** Some token ends in -j and the next one starts with `parent`. */
  predicate JumpPair(tokens: seq<string>, parent: string) {
    exists k :: 0 <= k < |tokens| - 1 && EndsWith(tokens[k], "-j") && parent <= tokens[k + 1]
  }

  lemma {:induction false} JoinStartsWith(tokens: seq<string>, p: string)
    requires tokens != [] && SpaceFree(p)
    ensures p <= Join(tokens) <==> p <= tokens[0]
  {
    var line := Join(tokens);
    assert tokens[0] <= line;
    assert |tokens| > 1 ==> line[|tokens[0]|] == ' ';
    assert p <= line ==> forall k :: 0 <= k < |p| ==> p[k] == line[k];
    assert p <= line ==> |p| <= |tokens[0]|;
  }

  lemma ContainsAtTail(t: string, rest: string, sub: string, i: nat)
    requires i >= |t| + 1
    ensures ContainsAt(t + " " + rest, sub, i) <==> ContainsAt(rest, sub, i - |t| - 1)
  {
    var line := t + " " + rest;
    if i + |sub| <= |line| {
      assert line[i..i + |sub|] == rest[i - |t| - 1..i - |t| - 1 + |sub|];
    }
  }

  lemma ContainsAtSeam(t: string, rest: string, f: string, p: string)
    requires EndsWith(t, f) && p <= rest
    ensures ContainsAt(t + " " + rest, f + " " + p, |t| - |f|)
  {
    var line, sub, i := t + " " + rest, f + " " + p, |t| - |f|;
    assert i + |sub| == |t| + 1 + |p|;
    assert line[i..|t|] == t[i..] == f && line[|t|..|t| + 1] == " ";
    assert line[|t| + 1..|t| + 1 + |p|] == rest[..|p|] == p;
    assert line[i..i + |sub|] == line[i..|t|] + line[|t|..|t| + 1] + line[|t| + 1..i + |sub|];
  }

  /** An occurrence that starts inside the first token can only be the aligned one. */
  lemma ContainsAtHead(t: string, rest: string, f: string, p: string, i: nat)
    requires SpaceFree(t) && SpaceFree(f) && f != "" && i <= |t|
    requires ContainsAt(t + " " + rest, f + " " + p, i)
    ensures EndsWith(t, f) && p <= rest
  {
    var line, sub := t + " " + rest, f + " " + p;
    assert line[|t|] == ' ' && forall k :: 0 <= k < |t| ==> line[k] == t[k];
    assert forall k :: 0 <= k < |sub| ==> line[i + k] == line[i..i + |sub|][k] == sub[k];
    assert line[i + |f|] == sub[|f|] == ' ';
    assert forall j :: 0 <= j < |t| ==> line[j] != ' ';
    assert forall j :: i <= j < i + |f| ==> line[j] != ' ' by {
      forall j | i <= j < i + |f| ensures line[j] != ' ' {
        assert line[j] == line[i + (j - i)] == sub[j - i] == f[j - i] && f[j - i] in f;
      }
    }
    assert i + |f| == |t|;
    assert f == sub[..|f|] == line[i..i + |sub|][..|f|] == line[i..i + |f|] == t[i..];
    assert p == sub[|f| + 1..] == line[i..i + |sub|][|f| + 1..] == line[i + |f| + 1..i + |sub|] == rest[..|p|];
  }

  lemma FollowedTail(tokens: seq<string>, f: string, p: string)
    requires |tokens| > 1
    ensures Followed(tokens, f, p) <==>
            (EndsWith(tokens[0], f) && p <= Join(tokens[1..])) || Followed(tokens[1..], f, p)
  {
    if k :| 0 <= k < |tokens| - 1 && EndsWith(tokens[k], f) && p <= Join(tokens[k + 1..]) {
      if k > 0 {
        assert tokens[1..][k - 1] == tokens[k] && tokens[1..][(k - 1) + 1..] == tokens[k + 1..];
      }
    }
    if k :| 0 <= k < |tokens[1..]| - 1 && EndsWith(tokens[1..][k], f) && p <= Join(tokens[1..][k + 1..]) {
      assert tokens[1..][k] == tokens[k + 1] && tokens[1..][k + 1..] == tokens[(k + 1) + 1..];
    }
  }

  /** Searching the printed line for "F P" finds exactly a token that ends in F before text that starts with P. */
  lemma {:induction false} ContainsFollowed(tokens: seq<string>, f: string, p: string)
    requires f != "" && SpaceFree(f) && forall t :: t in tokens ==> SpaceFree(t)
    ensures Contains(Join(tokens), f + " " + p) <==> Followed(tokens, f, p)
  {
    var line, sub := Join(tokens), f + " " + p;
    if |tokens| == 0 {
    } else if |tokens| == 1 {
      ContainsMembers(line, sub);
      assert sub[|f|] == ' ' && tokens[0] in tokens;
    } else {
      var t, rest := tokens[0], Join(tokens[1..]);
      ContainsFollowed(tokens[1..], f, p);
      FollowedTail(tokens, f, p);
      if i :| 0 <= i <= |line| && ContainsAt(line, sub, i) {
        if i <= |t| {
          ContainsAtHead(t, rest, f, p, i);
        } else {
          ContainsAtTail(t, rest, sub, i);
          assert Contains(rest, sub);
        }
      }
      if EndsWith(t, f) && p <= rest {
        ContainsAtSeam(t, rest, f, p);
      }
      if i :| 0 <= i <= |rest| && ContainsAt(rest, sub, i) {
        ContainsAtTail(t, rest, sub, i + |t| + 1);
      }
    }
  }

  /** Searching the printed line for "-j P" finds exactly the token pairs that spell it. */
  lemma ContainsJump(tokens: seq<string>, parent: string)
    requires parent != "" && SpaceFree(parent) && forall t :: t in tokens ==> SpaceFree(t)
    ensures Contains(Join(tokens), "-j " + parent) <==> JumpPair(tokens, parent)
  {
    assert "-j " + parent == "-j" + " " + parent;
    ContainsFollowed(tokens, "-j", parent);
    forall k | 0 <= k < |tokens| - 1 && EndsWith(tokens[k], "-j")
      ensures parent <= Join(tokens[k + 1..]) <==> parent <= tokens[k + 1]
    {
      JoinStartsWith(tokens[k + 1..], parent);
    }
  }

  lemma {:induction false} JoinConcat(a: seq<string>, b: seq<string>)
    requires a != [] && b != []
    ensures Join(a + b) == Join(a) + " " + Join(b)
    decreases |a|
  {
    if |a| == 1 {
      assert (a + b)[1..] == b;
    } else {
      assert (a + b)[1..] == a[1..] + b;
      JoinConcat(a[1..], b);
    }
  }

  /** Neighbouring tokens are found in the line as they stand. */
  lemma JoinHolds(before: seq<string>, mid: seq<string>, after: seq<string>)
    requires mid != []
    ensures Contains(Join(before + mid + after), Join(mid))
  {
    var head := if before == [] then "" else Join(before) + " ";
    var line := Join(before + mid + after);
    assert Join(before + mid) == head + Join(mid) by {
      if before == [] {
        assert before + mid == mid;
      } else {
        JoinConcat(before, mid);
      }
    }
    if after == [] {
      assert before + mid + after == before + mid;
    } else {
      JoinConcat(before + mid, after);
    }
    assert line[..|head| + |Join(mid)|] == head + Join(mid);
    assert ContainsAt(line, Join(mid), |head|);
  }

  lemma JoinTwo(a: string, b: string)
    ensures Join([a, b]) == a + " " + b
  {
    assert [a, b][1..] == [b];
  }

  lemma JoinThree(a: string, b: string, c: string)
    ensures Join([a, b, c]) == a + " " + b + " " + c
  {
    assert [a, b, c][1..] == [b, c];
    JoinTwo(b, c);
    assert a + " " + (b + " " + c) == a + " " + b + " " + c;
  }

  lemma SplitPrefix(a: string, b: string, t: string, rest: string)
    requires SpaceFree(a) && SpaceFree(t) && a + " " + b <= t + " " + rest
    ensures a == t && b <= rest
  {
    var line, p := t + " " + rest, a + " " + b;
    assert forall k :: 0 <= k < |p| ==> p[k] == line[k];
    assert p[|a|] == ' ' && line[|t|] == ' ';
    assert forall k :: 0 <= k < |a| ==> p[k] == a[k] && a[k] in a;
    assert forall k :: 0 <= k < |t| ==> line[k] == t[k] && t[k] in t;
    assert |a| == |t|;
    assert a == p[..|a|] == line[..|a|] == t;
    assert b == p[|a| + 1..] == line[|a| + 1..|p|] == rest[..|b|];
  }

  lemma JoinStartsWithTwo(tokens: seq<string>, a: string, b: string)
    requires |tokens| >= 2 && SpaceFree(tokens[0]) && SpaceFree(a) && SpaceFree(b)
    ensures a + " " + b <= Join(tokens) <==> tokens[0] == a && b <= tokens[1]
  {
    var rest := Join(tokens[1..]);
    JoinStartsWith(tokens[1..], b);
    if a + " " + b <= tokens[0] + " " + rest {
      SplitPrefix(a, b, tokens[0], rest);
    }
    if tokens[0] == a && b <= rest {
      assert (tokens[0] + " " + rest)[..|a + " " + b|] == a + " " + rest[..|b|];
    }
  }

  predicate Tokens(t: seq<string>) {
    forall x :: x in t ==> x != "" && SpaceFree(x)
  }

  /** Where only one token that ends in `f` can precede one that starts with `p`. */
  lemma PairAt(t: seq<string>, f: string, p: string, j: nat)
    requires Tokens(t) && f != "" && SpaceFree(f) && SpaceFree(p) && j < |t| - 1 && EndsWith(t[j], f)
    requires forall k :: 0 <= k < |t| - 1 && k != j && EndsWith(t[k], f) ==> !(p <= t[k + 1])
    ensures Contains(Join(t), f + " " + p) <==> p <= t[j + 1]
  {
    ContainsFollowed(t, f, p);
    forall k | 0 <= k < |t| - 1 && EndsWith(t[k], f) ensures p <= Join(t[k + 1..]) <==> p <= t[k + 1] {
      JoinStartsWith(t[k + 1..], p);
    }
  }

  /** Where only one token is `g`. */
  lemma TripleAt(t: seq<string>, f: string, g: string, p: string, j: nat)
    requires Tokens(t) && f != "" && SpaceFree(f) && SpaceFree(g) && SpaceFree(p) && p != ""
    requires j < |t| - 2 && EndsWith(t[j], f) && t[j + 1] == g && forall k :: 0 <= k < |t| && t[k] == g ==> k == j + 1
    ensures Contains(Join(t), f + " " + (g + " " + p)) <==> p <= t[j + 2]
  {
    var q := g + " " + p;
    ContainsFollowed(t, f, q);
    forall k | 0 <= k < |t| - 1 && EndsWith(t[k], f) ensures q <= Join(t[k + 1..]) <==> k == j && p <= t[j + 2] {
      if k < |t| - 2 {
        assert t[k + 1] in t;
        JoinStartsWithTwo(t[k + 1..], g, p);
      } else {
        assert t[k + 1..] == [t[k + 1]] && t[k + 1] in t;
        SpaceIn(g, p, Join(t[k + 1..]));
      }
    }
  }

  lemma SpaceIn(a: string, b: string, t: string)
    ensures a + " " + b <= t ==> ' ' in t
  {
    if a + " " + b <= t {
      assert (a + " " + b)[|a|] == t[|a|];
    }
  }

  lemma {:induction false} ContainsWord(tokens: seq<string>, w: string)
    requires w != "" && SpaceFree(w)
    ensures Contains(Join(tokens), w) <==> exists k :: 0 <= k < |tokens| && Contains(tokens[k], w)
  {
    if |tokens| > 1 {
      var t, rest := tokens[0], Join(tokens[1..]);
      ContainsWord(tokens[1..], w);
      WordInHead(t, rest, w);
      if k :| 0 <= k < |tokens| && Contains(tokens[k], w) {
        assert k > 0 ==> tokens[1..][k - 1] == tokens[k];
      }
      if k :| 0 <= k < |tokens[1..]| && Contains(tokens[1..][k], w) {
        assert tokens[k + 1] == tokens[1..][k];
      }
    }
  }

  /** A word without spaces lies on one side of a space. */
  lemma WordInHead(t: string, rest: string, w: string)
    requires w != "" && SpaceFree(w)
    ensures Contains(t + " " + rest, w) <==> Contains(t, w) || Contains(rest, w)
  {
    var line := t + " " + rest;
    if i :| 0 <= i <= |line| && ContainsAt(line, w, i) {
      forall j | i <= j < i + |w| ensures line[j] != ' ' {
        assert line[j] == line[i..i + |w|][j - i] == w[j - i] && w[j - i] in w;
      }
      assert line[|t|] == ' ';
      if i + |w| <= |t| {
        assert line[i..i + |w|] == t[i..i + |w|];
        assert ContainsAt(t, w, i);
      } else {
        ContainsAtTail(t, rest, w, i);
        assert ContainsAt(rest, w, i - |t| - 1);
      }
    }
    if i :| 0 <= i <= |t| && ContainsAt(t, w, i) {
      assert line[i..i + |w|] == t[i..i + |w|];
      assert ContainsAt(line, w, i);
    }
    if i :| 0 <= i <= |rest| && ContainsAt(rest, w, i) {
      ContainsAtTail(t, rest, w, i + |t| + 1);
      assert ContainsAt(line, w, i + |t| + 1);
    }
  }

  lemma {:induction false} JoinEndsWith(tokens: seq<string>)
    requires |tokens| >= 2
    ensures var tail := tokens[|tokens| - 2] + " " + tokens[|tokens| - 1];
            |Join(tokens)| >= |tail| && Join(tokens)[|Join(tokens)| - |tail|..] == tail
  {
    if |tokens| > 2 {
      JoinEndsWith(tokens[1..]);
    } else {
      assert Join(tokens[1..]) == tokens[1];
    }
  }

  /** The filter finds every rule that jumps to the parent, whatever else the rule matches on. */
  lemma TargetIsMentioned(r: Rule, parent: string)
    requires r.target == Jump(parent)
    ensures Mentions(LineTokens(FORWARD, r), parent)
  {
    var line := LineTokens(FORWARD, r);
    assert line[|line| - 2] == "-j" && line[|line| - 1] == parent;
    JoinEndsWith(line);
    var text, sub := Join(line), "-j " + parent;
    assert "-j" + " " + parent == sub;
    assert ContainsAt(text, sub, |text| - |sub|);
  }

  /* ---- the jump rules the agent installs ---- */

  /** One address behind one bridge; `inbound` selects -o/-d over -i/-s. */
  datatype JumpKey = JumpKey(bridge: string, ip: string)

  function JumpRule(inbound: bool, key: JumpKey, parent: string): Rule {
    if inbound
    then ANY.(dst := Some(key.ip + "/32"), outIf := Some(key.bridge), target := Jump(parent))
    else ANY.(src := Some(key.ip + "/32"), inIf := Some(key.bridge), target := Jump(parent))
  }

  /** The arguments in the order the agent passes them, which is not the order they are printed in. */
  function JumpArgs(inbound: bool, key: JumpKey, parent: string): seq<string> {
    if inbound
    then ["-o", key.bridge, "-d", key.ip + "/32", "-j", parent]
    else ["-i", key.bridge, "-s", key.ip + "/32", "-j", parent]
  }

  /** rule_matches: every desired token occurs somewhere in the printed line. */
  predicate RuleMatches(line: seq<string>, args: seq<string>) {
    forall a :: a in args ==> a in line
  }

  predicate ValidKey(key: JumpKey) {
    ValidIfaceName(key.bridge) && ValidIpv4Address(key.ip)
  }

  predicate IsParentName(parent: string) {
    parent != "" && parent[0] == 'Q' && forall c :: c in parent ==> IsAlnum(c)
  }

  /** The eight tokens of a printed jump rule. */
  function JumpLine(addrFlag: string, addr: string, ifFlag: string, bridge: string, target: string): seq<string> {
    ["-A", FORWARD, addrFlag, addr, ifFlag, bridge, "-j", target]
  }

  function JumpLineOf(inbound: bool, key: JumpKey, target: string): seq<string> {
    if inbound then JumpLine("-d", key.ip + "/32", "-o", key.bridge, target)
    else JumpLine("-s", key.ip + "/32", "-i", key.bridge, target)
  }

  lemma PrintJump(inbound: bool, key: JumpKey, target: string)
    ensures LineTokens(FORWARD, JumpRule(inbound, key, target)) == JumpLineOf(inbound, key, target)
  {
  }

  lemma KeyTokensSpaceFree(key: JumpKey)
    requires ValidKey(key)
    ensures SpaceFree(key.bridge) && SpaceFree(key.ip + "/32")
  {
    OctetsAlphabet(key.ip, 4);
  }

  predicate IsFlag(f: string) {
    |f| == 2 && f[0] == '-' && f[1] != 'j'
  }

  lemma NoFlagNames(f: string, parent: string)
    requires |f| == 2 && f[0] == '-' && IsParentName(parent)
    ensures !(parent <= f) && (f[1] != 'j' ==> !EndsWith(f, "-j"))
  {
  }

  lemma JumpLineMentions(f: string, addr: string, g: string, bridge: string, target: string, parent: string)
    requires IsFlag(f) && IsFlag(g) && IsParentName(parent)
    ensures JumpPair(JumpLine(f, addr, g, bridge, target), parent) <==> parent <= target
  {
    var tokens := JumpLine(f, addr, g, bridge, target);
    NoFlagNames("-A", parent);
    NoFlagNames(f, parent);
    NoFlagNames(g, parent);
    NoFlagNames("-j", parent);
    assert tokens[0] == "-A" && tokens[2] == f && tokens[4] == g && tokens[6] == "-j" && tokens[7] == target;
    assert EndsWith("-j", "-j");
    if parent <= target {
      assert EndsWith(tokens[6], "-j") && parent <= tokens[6 + 1];
    }
  }

  lemma LineMentionsIsPrefix(inbound: bool, key: JumpKey, target: string, parent: string)
    requires ValidKey(key) && IsParentName(target) && IsParentName(parent)
    ensures Mentions(JumpLineOf(inbound, key, target), parent) <==> parent <= target
  {
    KeyTokensSpaceFree(key);
    ContainsJump(JumpLineOf(inbound, key, target), parent);
    if inbound {
      JumpLineMentions("-d", key.ip + "/32", "-o", key.bridge, target, parent);
    } else {
      JumpLineMentions("-s", key.ip + "/32", "-i", key.bridge, target, parent);
    }
  }

  /**
   * The substring filter selects a jump rule exactly when the searched chain
   * name is a prefix of the rule's target.
   */
  lemma MentionsIsPrefix(inbound: bool, key: JumpKey, target: string, parent: string)
    requires ValidKey(key) && IsParentName(target) && IsParentName(parent)
    ensures Mentions(LineTokens(FORWARD, JumpRule(inbound, key, target)), parent) <==> parent <= target
  {
    PrintJump(inbound, key, target);
    LineMentionsIsPrefix(inbound, key, target, parent);
  }

  /** Containment of the six desired tokens in the eight printed ones, flags and values apart. */
  lemma JumpLineTokens(f: string, g: string, addr: string, addr': string, bridge: string, bridge': string,
                       parent: string, target: string)
    requires IsFlag(f) && IsFlag(g)
    requires '/' in addr && '/' in addr' && '/' !in bridge && '/' !in bridge' && '/' !in parent && '/' !in target
    requires bridge != "" && bridge[0] != '-' && addr[0] != '-' && parent != "" && parent[0] == 'Q'
    ensures RuleMatches(JumpLine(f, addr', g, bridge', target), [g, bridge, f, addr, "-j", parent]) <==>
            addr == addr' && (bridge == bridge' || bridge == FORWARD || bridge == target)
              && (parent == bridge' || parent == target)
  {
    var args, line := [g, bridge, f, addr, "-j", parent], JumpLine(f, addr', g, bridge', target);
    assert forall a :: a in args <==> a == g || a == bridge || a == f || a == addr || a == "-j" || a == parent;
    assert forall a :: a in line <==>
             a == "-A" || a == FORWARD || a == f || a == addr' || a == g || a == bridge' || a == "-j" || a == target;
    assert '/' !in FORWARD && FORWARD[0] == 'F';
    assert RuleMatches(line, args) <==> bridge in line && addr in line && parent in line;
  }

  /**
   * A printed jump of one VM passes for a desired jump of another, or of the same: same
   * address, and the other two tokens found somewhere.
   */
  predicate PassesFor(want: JumpKey, parent: string, have: JumpKey, target: string) {
    && want.ip == have.ip && (want.bridge == have.bridge || want.bridge == FORWARD || want.bridge == target)
    && (parent == have.bridge || parent == target)
  }

  lemma LineTokenSet(inbound: bool, want: JumpKey, have: JumpKey, parent: string, target: string)
    requires ValidKey(want) && ValidKey(have) && IsParentName(parent) && IsParentName(target)
    ensures RuleMatches(JumpLineOf(inbound, have, target), JumpArgs(inbound, want, parent)) <==>
              PassesFor(want, parent, have, target)
  {
    OctetsAlphabet(want.ip, 4);
    var addr, addr' := want.ip + "/32", have.ip + "/32";
    assert addr[|want.ip|] == '/' && addr'[|have.ip|] == '/' && addr[0] == want.ip[0] && want.ip[0] in want.ip;
    assert addr[..|addr| - 3] == want.ip && addr'[..|addr'| - 3] == have.ip;
    if inbound {
      JumpLineTokens("-d", "-o", addr, addr', want.bridge, have.bridge, parent, target);
    } else {
      JumpLineTokens("-s", "-i", addr, addr', want.bridge, have.bridge, parent, target);
    }
  }

  /** Token-set containment against a printed jump rule, whatever chain it jumps to. */
  lemma TokenSetMeans(inbound: bool, want: JumpKey, have: JumpKey, parent: string, target: string)
    requires ValidKey(want) && ValidKey(have) && IsParentName(parent) && IsParentName(target)
    ensures RuleMatches(LineTokens(FORWARD, JumpRule(inbound, have, target)), JumpArgs(inbound, want, parent)) <==>
            PassesFor(want, parent, have, target)
  {
    PrintJump(inbound, have, target);
    LineTokenSet(inbound, want, have, parent, target);
  }

  /**
   * For a jump to the same chain that is rule equality, except when the desired
   * bridge happens to be called FORWARD or like the chain.
   */
  lemma TokenSetIsEquality(inbound: bool, want: JumpKey, have: JumpKey, parent: string)
    requires ValidKey(want) && ValidKey(have) && IsParentName(parent)
    ensures RuleMatches(LineTokens(FORWARD, JumpRule(inbound, have, parent)), JumpArgs(inbound, want, parent)) <==>
            want.ip == have.ip && (want.bridge == have.bridge || want.bridge == FORWARD || want.bridge == parent)
  {
    TokenSetMeans(inbound, want, have, parent, parent);
  }

  /**
   * Names made from identifiers with at least 21 letters and digits, such as UUIDs, are
   * never proper prefixes of each other.
   */
  lemma FullNamesDoNotNest(vm: string, other: string)
    requires |SanitizeSuffix(vm, 21)| == |SanitizeSuffix(other, 21)|
    ensures InSide(vm).parent <= InSide(other).parent <==> InSide(vm).parent == InSide(other).parent
    ensures OutSide(vm).parent <= OutSide(other).parent <==> OutSide(vm).parent == OutSide(other).parent
    ensures !(InSide(vm).parent <= OutSide(other).parent) && !(OutSide(vm).parent <= InSide(other).parent)
  {
    assert InSide(vm).parent[4] == 'I' && OutSide(vm).parent[4] == 'O';
    assert InSide(other).parent[4] == 'I' && OutSide(other).parent[4] == 'O';
  }

  lemma ParentNames(vm: string)
    ensures IsParentName(InSide(vm).parent) && IsParentName(OutSide(vm).parent)
  {
    assert forall c :: c in "QXVMI" || c in "QXVMO" ==> IsAlnum(c);
  }
}
