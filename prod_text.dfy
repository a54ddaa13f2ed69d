/** The text functions of the production restore script: `decodeHTML`,
    `normalizeText` and the deduplication signature `getMessageSignature`. */
module RestoreWithProdText {
  import opened Wrappers
  import opened Strings
  import opened Messages

  /** The replacements of `decodeHTML`, in the order they are applied. */
  const Entities: seq<(string, string)> := [
    ("&amp;", "&"), ("&lt;", "<"), ("&gt;", ">"), ("&quot;", "\""), ("&#039;", "'"),
    ("&#x27;", "'"), ("&#x2F;", "/"), ("&#39;", "'"), ("&#47;", "/")]

  /** Every rule replaces an entity, which starts with `&`, by something no longer. */
  predicate EntityRules(rules: seq<(string, string)>) {
    forall i :: 0 <= i < |rules| ==>
      rules[i].0 != [] && rules[i].0[0] == '&' && |rules[i].1| <= |rules[i].0|
  }

  /** The chain `s.replace(/p1/g, r1).replace(/p2/g, r2)...`. */
  function ReplaceEach(s: string, rules: seq<(string, string)>): string
    requires EntityRules(rules)
    decreases |rules|
  {
    if rules == [] then s else ReplaceEach(ReplaceAll(s, rules[0].0, rules[0].1), rules[1..])
  }

  lemma {:induction false} ReplaceEachShrinks(s: string, rules: seq<(string, string)>)
    requires EntityRules(rules)
    ensures |ReplaceEach(s, rules)| <= |s|
    decreases |rules|
  {
    if rules != [] {
      ReplaceAllShrinks(s, rules[0].0, rules[0].1);
      ReplaceEachShrinks(ReplaceAll(s, rules[0].0, rules[0].1), rules[1..]);
    }
  }

  lemma {:induction false} ReplaceEachAbsent(s: string, rules: seq<(string, string)>)
    requires EntityRules(rules) && '&' !in s
    ensures ReplaceEach(s, rules) == s
    decreases |rules|
  {
    if rules != [] {
      ReplaceAllAbsent(s, rules[0].0, rules[0].1);
      ReplaceEachAbsent(s, rules[1..]);
    }
  }

  /** `decodeHTML`: the empty text stays empty; otherwise the nine entity
      replacements are applied one after the other. Decoding never lengthens
      the text and leaves a text without `&` alone. */
  function DecodeHTML(html: string): (r: string)
    ensures |r| <= |html|
    ensures '&' !in html ==> r == html
  {
    if html == [] then []
    else
      ReplaceEachShrinks(html, Entities);
      if '&' !in html then ReplaceEachAbsent(html, Entities); ReplaceEach(html, Entities)
      else ReplaceEach(html, Entities)
  }

  /** `&amp;` is decoded first, so `&amp;lt;` ends up as `<`. */
  lemma DecodeAmpersandFirst()
    ensures DecodeHTML("&amp;lt;") == "<"
  {
    EntitiesShape('n');
    ChainTwo("&amp;lt;", Entities);
    assert Entities[0] == ("&amp;", "&") && Entities[1] == ("&lt;", "<");
    AmpersandStep();
    LessThanStep();
    AfterLessThan();
  }

  lemma AmpersandStep()
    ensures ReplaceAll("&amp;lt;", "&amp;", "&") == "&lt;"
  {
    assert "&amp;lt;" == "&amp;" + "lt;";
    ReplaceAllHead("&amp;", "lt;", "&");
  }

  lemma LessThanStep()
    ensures ReplaceAll("&lt;", "&lt;", "<") == "<"
  {
    assert "&lt;" == "&lt;" + [];
    ReplaceAllHead("&lt;", [], "<");
  }

  lemma AfterLessThan()
    ensures EntityRules(Entities[2..]) && ReplaceEach("<", Entities[2..]) == "<"
  {
    LaterEntitiesShape();
    assert Entities[1..][1..] == Entities[2..];
    ReplaceEachAbsent("<", Entities[2..]);
  }

  /** The first two steps of the chain. */
  lemma ChainTwo(s: string, rules: seq<(string, string)>)
    requires EntityRules(rules) && |rules| >= 2
    ensures EntityRules(rules[2..])
    ensures ReplaceEach(s, rules) ==
      ReplaceEach(ReplaceAll(ReplaceAll(s, rules[0].0, rules[0].1), rules[1].0, rules[1].1), rules[2..])
  {
    assert rules[1..][0] == rules[1] && rules[1..][1..] == rules[2..];
  }

  /** `&nbsp;` is not among the decoded entities. */
  lemma DecodeKeepsNbsp()
    ensures DecodeHTML("&nbsp;") == "&nbsp;"
  {
    var s := "&nbsp;";
    assert s[1..] == "nbsp;";
    EntitiesShape('n');
    ReplaceEachMisses(s, Entities, 'n');
  }

  /** The characters the first replacement of `normalizeText` turns into a space:
      `\s`, U+200B to U+200D, U+FEFF and, because of a brace inside the
      character class, `}`. */
  predicate IsBlankLike(c: char) {
    IsJsSpace(c) || ('\U{200B}' <= c <= '\U{200D}') || c == '\U{FEFF}' || c == '}'
  }

  /** `.replace(/[\s\u{200B}-\u{200D}\uFEFF}]/gu, ' ')`. */
  function Blank(s: string): (r: string)
    ensures |r| == |s|
    ensures forall i :: 0 <= i < |r| ==> (IsBlankLike(r[i]) ==> r[i] == ' ')
    ensures forall i :: 0 <= i < |r| ==> (r[i] != s[i] ==> IsBlankLike(s[i]) && r[i] == ' ')
    ensures forall i :: 0 <= i < |r| ==> (IsBlankLike(s[i]) ==> r[i] == ' ')
  {
    seq(|s|, i requires 0 <= i < |s| => if IsBlankLike(s[i]) then ' ' else s[i])
  }

  /** `.replace(/\s+/g, ' ')`: every maximal run of white space becomes one space. */
  function Collapse(s: string): (r: string)
    ensures (r == []) == (s == [])
    ensures r != [] ==> (IsJsSpace(r[0]) <==> IsJsSpace(s[0]))
    ensures forall i :: 0 <= i < |r| ==> (IsJsSpace(r[i]) ==> r[i] == ' ')
    ensures forall i :: 0 <= i < |r| - 1 ==> !(IsJsSpace(r[i]) && IsJsSpace(r[i + 1]))
    ensures forall c :: c in r ==> c in s || c == ' '
    decreases |s|
  {
    if s == [] then []
    else if IsJsSpace(s[0]) then
      var rest := s[LeadingSpaces(s)..];
      assert forall c :: c in rest ==> c in s;
      [' '] + Collapse(rest)
    else
      assert forall c :: c in s[1..] ==> c in s;
      [s[0]] + Collapse(s[1..])
  }

  /** `normalizeText`: decode, blank out special spaces, collapse runs of spaces,
      trim, lower-case; the empty text stays empty. */
  function NormalizeText(text: string): string {
    if text == [] then [] else Tidy(DecodeHTML(text))
  }

  /** The steps of `normalizeText` after the decoding. */
  function Tidy(d: string): string {
    Lower(Trim(Collapse(Blank(d))))
  }

  /** The shape of every normalised text: no upper-case letter, no special
      space other than a plain space, no space at either end, and never two
      spaces in a row. */
  predicate Normal(s: string) {
    (forall i :: 0 <= i < |s| ==> !IsUpperAscii(s[i]) && (IsBlankLike(s[i]) ==> s[i] == ' ')) &&
    (s != [] ==> s[0] != ' ' && s[|s| - 1] != ' ') &&
    (forall i :: 0 <= i < |s| - 1 ==> !(s[i] == ' ' && s[i + 1] == ' '))
  }

  /** Only single plain spaces: the shape a text has after blanking and collapsing. */
  predicate PlainSpaced(s: string) {
    (forall i :: 0 <= i < |s| ==> (IsBlankLike(s[i]) ==> s[i] == ' ')) &&
    (forall i :: 0 <= i < |s| - 1 ==> !(s[i] == ' ' && s[i + 1] == ' '))
  }

  lemma LowerCharBlank(c: char)
    ensures IsBlankLike(LowerChar(c)) == IsBlankLike(c)
    ensures (LowerChar(c) == ' ') == (c == ' ')
    ensures IsJsSpace(LowerChar(c)) == IsJsSpace(c)
    ensures (LowerChar(c) == '&') == (c == '&')
  {
  }

  lemma CollapsedBlank(d: string)
    ensures PlainSpaced(Collapse(Blank(d)))
  {
    var b := Blank(d);
    var c := Collapse(b);
    forall i | 0 <= i < |c| ensures IsBlankLike(c[i]) ==> c[i] == ' ' {
      assert c[i] in c;
      if c[i] in b {
        var j :| 0 <= j < |b| && b[j] == c[i];
      }
    }
  }

  lemma TrimLowerNormal(c: string)
    requires PlainSpaced(c)
    ensures Normal(Lower(Trim(c)))
  {
    var i, j := TrimBounds(c);
    PlainSpacedInfix(c, i, j);
    LowerNormal(Trim(c));
  }

  lemma PlainSpacedInfix(c: string, i: nat, j: nat)
    requires PlainSpaced(c) && i <= j <= |c|
    ensures PlainSpaced(c[i..j])
  {
    assert forall k :: 0 <= k < j - i ==> c[i..j][k] == c[i + k];
  }

  lemma LowerNormal(t: string)
    requires PlainSpaced(t)
    requires t != [] ==> !IsJsSpace(t[0]) && !IsJsSpace(t[|t| - 1])
    ensures Normal(Lower(t))
  {
    var r := Lower(t);
    forall k | 0 <= k < |r| ensures IsBlankLike(r[k]) ==> r[k] == ' ' {
      LowerCharBlank(t[k]);
    }
    forall k | 0 <= k < |r| - 1 ensures !(r[k] == ' ' && r[k + 1] == ' ') {
      LowerCharBlank(t[k]);
      LowerCharBlank(t[k + 1]);
    }
    if r != [] {
      LowerCharBlank(t[0]);
      LowerCharBlank(t[|t| - 1]);
    }
  }

  /** Lower-case letters and a little punctuation, without spaces. */
  predicate IsWordChar(c: char) {
    ('a' <= c <= 'z') || c == '&' || c == ';' || c == '|'
  }

  lemma WordNormal(s: string)
    requires forall i :: 0 <= i < |s| ==> IsWordChar(s[i])
    ensures Normal(s)
  {
  }

  /** The output of `normalizeText` is in normal form. */
  lemma NormalizeTextNormal(text: string)
    ensures Normal(NormalizeText(text))
  {
    if text != [] {
      var d := DecodeHTML(text);
      CollapsedBlank(d);
      TrimLowerNormal(Collapse(Blank(d)));
    }
  }

  /** Collapsing leaves alone a text whose spaces are single plain spaces. */
  lemma {:induction false} CollapseKeeps(s: string)
    requires PlainSpaced(s)
    ensures Collapse(s) == s
    decreases |s|
  {
    if s != [] {
      assert forall i :: 0 <= i < |s[1..]| ==> s[1..][i] == s[i + 1];
      CollapseKeeps(s[1..]);
      if IsJsSpace(s[0]) {
        assert s[0] == ' ';
        assert LeadingSpaces(s) == 1 + LeadingSpaces(s[1..]);
        if |s| > 1 {
          assert s[1] != ' ';
          assert !IsBlankLike(s[1]);
        }
        assert LeadingSpaces(s[1..]) == 0;
      }
    }
  }

  /** The steps after decoding leave a text in normal form alone. */
  lemma TidyKeeps(s: string)
    requires Normal(s)
    ensures Tidy(s) == s
  {
    BlankKeeps(s);
    CollapseKeeps(s);
    TrimKeeps(s);
    LowerKeeps(s);
  }

  lemma BlankKeeps(s: string)
    requires forall i :: 0 <= i < |s| ==> (IsBlankLike(s[i]) ==> s[i] == ' ')
    ensures Blank(s) == s
  {
  }

  lemma TrimKeeps(s: string)
    requires Normal(s)
    ensures Trim(s) == s
  {
    if s != [] {
      assert !IsBlankLike(s[0]) && !IsBlankLike(s[|s| - 1]);
      assert LeadingSpaces(s) == 0;
      assert TrailingSpaces(s) == 0;
      assert s[0..] == s && s[..|s| - 0] == s;
    }
  }

  lemma LowerKeeps(s: string)
    requires forall i :: 0 <= i < |s| ==> !IsUpperAscii(s[i])
    ensures Lower(s) == s
  {
  }

  /** A text that is in normal form and holds no `&` is its own normalisation. */
  lemma NormalizeTextFixed(s: string)
    requires Normal(s) && '&' !in s
    ensures NormalizeText(s) == s
  {
    if s != [] {
      TidyKeeps(s);
    }
  }

  /** Normalising introduces no `&`. */
  lemma TidyAmpersandFree(d: string)
    requires '&' !in d
    ensures '&' !in Tidy(d)
  {
    var b := Blank(d);
    forall i | 0 <= i < |b| ensures b[i] != '&' {
      assert d[i] in d;
    }
    var c := Collapse(b);
    var t := Trim(c);
    var r := Lower(t);
    forall k | 0 <= k < |r| ensures r[k] != '&' {
      assert t[k] in t;
      LowerCharBlank(t[k]);
    }
  }

  /** On texts without `&`, normalising twice is the same as normalising once. */
  lemma NormalizeTextIdempotent(text: string)
    requires '&' !in text
    ensures NormalizeText(NormalizeText(text)) == NormalizeText(text)
  {
    NormalizeTextNormal(text);
    if text != [] {
      TidyAmpersandFree(text);
    }
    NormalizeTextFixed(NormalizeText(text));
  }

  /** With `&` it is not: the entity decoding peels one layer at a time. */
  lemma NormalizeTextNotIdempotent(s: string)
    requires s == "&amp;amp;"
    ensures NormalizeText(s) == "&amp;"
    ensures NormalizeText(NormalizeText(s)) == "&"
  {
    NormalizeDoubleAmp(s);
    NormalizeSingleAmp(NormalizeText(s));
  }

  lemma NormalizeDoubleAmp(s: string)
    requires s == "&amp;amp;"
    ensures NormalizeText(s) == "&amp;"
  {
    DecodeDoubleAmp(s);
    AmpWord();
    NormalizeWord(s, "&amp;");
  }

  lemma NormalizeSingleAmp(s: string)
    requires s == "&amp;"
    ensures NormalizeText(s) == "&"
  {
    DecodeSingleAmp(s);
    assert IsWordChar("&"[0]);
    NormalizeWord(s, "&");
  }

  lemma AmpWord()
    ensures forall i :: 0 <= i < |"&amp;"| ==> IsWordChar("&amp;"[i])
  {
    assert "&amp;" == ['&', 'a', 'm', 'p', ';'];
  }

  /** A non-empty text that decodes to a word normalises to it. */
  lemma NormalizeWord(s: string, d: string)
    requires s != [] && DecodeHTML(s) == d
    requires forall i :: 0 <= i < |d| ==> IsWordChar(d[i])
    ensures NormalizeText(s) == d
  {
    WordNormal(d);
    TidyKeeps(d);
  }

  lemma DecodeDoubleAmp(s: string)
    requires s == "&amp;amp;"
    ensures DecodeHTML(s) == "&amp;"
  {
    assert s == "&amp;" + "amp;";
    ReplaceAllHead("&amp;", "amp;", "&");
    assert "&" + "amp;" == "&amp;";
    MissesLaterEntities("&amp;");
  }

  lemma DecodeSingleAmp(s: string)
    requires s == "&amp;"
    ensures DecodeHTML(s) == "&"
  {
    assert s == "&amp;" + [];
    ReplaceAllHead("&amp;", [], "&");
    MissesLaterEntities("&");
  }

  /** A pattern at the head of a text without its first character is replaced once. */
  lemma ReplaceAllHead(pat: string, rest: string, rep: string)
    requires pat != [] && pat[0] !in rest
    ensures ReplaceAll(pat + rest, pat, rep) == rep + rest
  {
    assert (pat + rest)[..|pat|] == pat;
    assert (pat + rest)[|pat|..] == rest;
    ReplaceAllAbsent(rest, pat, rep);
  }

  /** A text whose only `&` leads it, and which starts with no entity other
      than `&amp;`, passes the rest of the chain unchanged. */
  lemma MissesLaterEntities(s: string)
    requires s != [] && s[0] == '&' && '&' !in s[1..]
    requires |s| == 1 || s[1] == 'a'
    ensures ReplaceEach(s, Entities[1..]) == s
  {
    LaterEntitiesShape();
    ReplaceEachMisses(s, Entities[1..], 'a');
  }

  /** Every entity of the rules has a second character other than `c`. */
  predicate SecondNot(rules: seq<(string, string)>, c: char) {
    forall i :: 0 <= i < |rules| ==> |rules[i].0| >= 2 && rules[i].0[1] != c
  }

  /** The entities after `&amp;` have a second character other than `a`. */
  lemma LaterEntitiesShape()
    ensures EntityRules(Entities[1..]) && SecondNot(Entities[1..], 'a')
  {
    forall i | 1 <= i < |Entities| ensures |Entities[i].0| >= 2 && Entities[i].0[1] != 'a' {
      EntityShape(i);
    }
  }

  /** No entity continues with a character other than `a`, `l`, `g`, `q` and `#`. */
  lemma EntitiesShape(c: char)
    requires c !in "algq#"
    ensures EntityRules(Entities) && SecondNot(Entities, c)
  {
    forall i | 0 <= i < |Entities| ensures |Entities[i].0| >= 2 && Entities[i].0[1] != c {
      EntityShape(i);
    }
  }

  lemma EntityShape(i: nat)
    requires i < |Entities|
    ensures |Entities[i].0| >= 2
    ensures Entities[i].0[1] == (if i == 0 then 'a' else if i == 1 then 'l' else if i == 2 then 'g'
      else if i == 3 then 'q' else '#')
  {
    if i == 0 { assert Entities[0].0 == "&amp;"; }
    else if i == 1 { assert Entities[1].0 == "&lt;"; }
    else if i == 2 { assert Entities[2].0 == "&gt;"; }
    else if i == 3 { assert Entities[3].0 == "&quot;"; }
    else { assert Entities[i].0[1] == '#'; }
  }

  /** A text that starts with `&` followed by nothing or by a character no
      entity continues with, and has no later `&`, passes the chain unchanged. */
  lemma {:induction false} ReplaceEachMisses(s: string, rules: seq<(string, string)>, c: char)
    requires EntityRules(rules) && SecondNot(rules, c)
    requires s != [] && '&' !in s[1..] && (|s| == 1 || s[1] == c)
    ensures ReplaceEach(s, rules) == s
    decreases |rules|
  {
    if rules != [] {
      var pat := rules[0].0;
      assert pat[0] == '&';
      SecondDiffers(s, pat);
      ReplaceAllMisses(s, pat, rules[0].1);
      RulesTail(rules, c);
      ReplaceEachMisses(s, rules[1..], c);
    }
  }

  lemma RulesTail(rules: seq<(string, string)>, c: char)
    requires rules != [] && EntityRules(rules)
    ensures EntityRules(rules[1..])
    ensures SecondNot(rules, c) ==> SecondNot(rules[1..], c)
  {
    assert forall i :: 0 <= i < |rules[1..]| ==> rules[1..][i] == rules[i + 1];
  }

  lemma SecondDiffers(s: string, pat: string)
    requires |pat| >= 2 && s != [] && (|s| == 1 || s[1] != pat[1])
    ensures !StartsWith(s, pat)
  {
    if |pat| <= |s| {
      assert s[..|pat|][1] == s[1];
    }
  }

  lemma ReplaceAllMisses(s: string, pat: string, rep: string)
    requires pat != [] && s != [] && !StartsWith(s, pat) && pat[0] !in s[1..]
    ensures ReplaceAll(s, pat, rep) == s
  {
    ReplaceAllAbsent(s[1..], pat, rep);
    assert s == [s[0]] + s[1..];
  }

  /** `imageType`: `url` whenever `imageUrl` is set, `base64` when only `image` is. */
  function ImageType(m: Message): string {
    if Truthy(m.imageUrl) then "url" else if Truthy(m.image) then "base64" else "none"
  }

  /** `!!(msg.imageUrl || msg.image)`. */
  predicate HasImage(m: Message) {
    Truthy(m.imageUrl) || Truthy(m.image)
  }

  function BoolText(b: bool): string {
    if b then "true" else "false"
  }

  /** The template `${name}|${message}|${hasImage}|${imageType}`. */
  function SignatureText(name: string, message: string, hasImage: bool, imageType: string): string {
    name + "|" + message + "|" + BoolText(hasImage) + "|" + imageType
  }

  /** `getMessageSignature`: the template over the normalised name and message. */
  function Signature(m: Message): string {
    SignatureText(NormalizeText(m.name), NormalizeText(m.message), HasImage(m), ImageType(m))
  }

  /** `hasImage` is `true` exactly when `imageType` is not `none`. */
  lemma HasImageIffTyped(m: Message)
    ensures HasImage(m) <==> ImageType(m) != "none"
    ensures ImageType(m) == "url" <==> Truthy(m.imageUrl)
    ensures ImageType(m) == "base64" <==> !Truthy(m.imageUrl) && Truthy(m.image)
  {
    assert "url" != "none" && "base64" != "none" && "url" != "base64";
  }

  /** Equal signatures agree on the kind of image, hence on whether `imageUrl` is set. */
  lemma SignatureImage(a: Message, b: Message)
    requires Signature(a) == Signature(b)
    ensures ImageType(a) == ImageType(b) && HasImage(a) == HasImage(b)
    ensures Truthy(a.imageUrl) == Truthy(b.imageUrl)
  {
    HasImageIffTyped(a);
    HasImageIffTyped(b);
    TemplateEndsWithType(NormalizeText(a.name), NormalizeText(a.message), HasImage(a), ImageType(a),
                         NormalizeText(b.name), NormalizeText(b.message), HasImage(b), ImageType(b));
  }

  predicate IsImageTypeName(t: string) {
    t == "url" || t == "base64" || t == "none"
  }

  /** The last three characters of the template tell the image type. */
  lemma TemplateEndsWithType(n1: string, m1: string, h1: bool, t1: string,
                             n2: string, m2: string, h2: bool, t2: string)
    requires IsImageTypeName(t1) && IsImageTypeName(t2)
    requires SignatureText(n1, m1, h1, t1) == SignatureText(n2, m2, h2, t2)
    ensures t1 == t2
  {
    SuffixOf(n1 + "|" + m1 + "|" + BoolText(h1) + "|", t1, 3);
    SuffixOf(n2 + "|" + m2 + "|" + BoolText(h2) + "|", t2, 3);
    TypeSuffix(t1);
    TypeSuffix(t2);
  }

  /** The three image type names differ in their last three characters. */
  lemma TypeSuffix(t: string)
    requires IsImageTypeName(t)
    ensures |t| >= 3
    ensures t[|t| - 3..] == if t == "url" then "url" else if t == "base64" then "e64" else "one"
  {
    assert "url"[0..] == "url" && "base64"[3..] == "e64" && "none"[1..] == "one";
  }

  lemma SuffixOf(x: string, y: string, n: nat)
    requires n <= |y|
    ensures (x + y)[|x + y| - n..] == y[|y| - n..]
  {
  }

  /** When no normalised name holds a `|`, equal signatures mean equal
      normalised names, equal normalised messages and the same kind of image. */
  lemma SignatureInjective(a: Message, b: Message)
    requires '|' !in NormalizeText(a.name) && '|' !in NormalizeText(b.name)
    requires Signature(a) == Signature(b)
    ensures NormalizeText(a.name) == NormalizeText(b.name)
    ensures NormalizeText(a.message) == NormalizeText(b.message)
    ensures ImageType(a) == ImageType(b)
  {
    SignatureImage(a, b);
    TemplateInjective(NormalizeText(a.name), NormalizeText(a.message), NormalizeText(b.name),
                      NormalizeText(b.message), HasImage(a), ImageType(a));
  }

  lemma TemplateInjective(n1: string, m1: string, n2: string, m2: string, h: bool, t: string)
    requires '|' !in n1 && '|' !in n2
    requires SignatureText(n1, m1, h, t) == SignatureText(n2, m2, h, t)
    ensures n1 == n2 && m1 == m2
  {
    var tail := "|" + BoolText(h) + "|" + t;
    SignatureRegrouped(n1, m1, h, t);
    SignatureRegrouped(n2, m2, h, t);
    SeparatedParts(n1, m1 + tail, n2, m2 + tail, '|');
    DropTail(m1, m2, tail);
  }

  /** The signature text as name, separator, and the rest. */
  lemma SignatureRegrouped(n: string, m: string, h: bool, t: string)
    ensures SignatureText(n, m, h, t) == n + ['|'] + (m + ("|" + BoolText(h) + "|" + t))
  {
  }

  lemma DropTail(a: string, b: string, c: string)
    requires a + c == b + c
    ensures a == b
  {
    assert a == (a + c)[..|a|];
    assert b == (b + c)[..|b|];
  }

  /** The signature is ambiguous when a name holds `|`: `a|b` saying `c` and
      `a` saying `b|c` count as the same message. */
  lemma SignatureCollision(a: Message, b: Message)
    requires NormalizeText(a.name) == "a|b" && NormalizeText(a.message) == "c"
    requires NormalizeText(b.name) == "a" && NormalizeText(b.message) == "b|c"
    requires a.image == b.image && a.imageUrl == b.imageUrl
    ensures Signature(a) == Signature(b)
    ensures NormalizeText(a.name) != NormalizeText(b.name)
  {
    assert HasImage(a) == HasImage(b) && ImageType(a) == ImageType(b);
    TemplateExample(HasImage(a), ImageType(a));
  }

  lemma TemplateExample(h: bool, t: string)
    ensures SignatureText("a|b", "c", h, t) == SignatureText("a", "b|c", h, t)
  {
    TemplateAmbiguous("a", "b", "c", h, t);
  }

  /** Where the name ends cannot be told from the template. */
  lemma TemplateAmbiguous(x: string, y: string, z: string, h: bool, t: string)
    ensures SignatureText(x + "|" + y, z, h, t) == SignatureText(x, y + "|" + z, h, t)
  {
  }

  /** Such messages exist: the texts `a|b`, `c`, `a` and `b|c` are their own normalisations. */
  lemma WordsNormalized(na: string, ma: string, nb: string, mb: string)
    requires forall i :: 0 <= i < |na| ==> IsWordChar(na[i])
    requires forall i :: 0 <= i < |ma| ==> IsWordChar(ma[i])
    requires forall i :: 0 <= i < |nb| ==> IsWordChar(nb[i])
    requires forall i :: 0 <= i < |mb| ==> IsWordChar(mb[i])
    requires '&' !in na && '&' !in ma && '&' !in nb && '&' !in mb
    ensures NormalizeText(na) == na && NormalizeText(ma) == ma
    ensures NormalizeText(nb) == nb && NormalizeText(mb) == mb
  {
    WordNormal(na);
    WordNormal(ma);
    WordNormal(nb);
    WordNormal(mb);
    NormalizeTextFixed(na);
    NormalizeTextFixed(ma);
    NormalizeTextFixed(nb);
    NormalizeTextFixed(mb);
  }

}
