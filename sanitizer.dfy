/**
 * The allowlist HTML sanitiser and the URL validator of src/Sanitizer.php.
 *
 * The DOM is an abstract tree (element, text, any other node kind). The parts of
 * the sanitiser that belong to libxml and PCRE (parsing, `saveHTML`, the final
 * regular-expression pass), and `filter_var`/`parse_url` for URLs, are the fields
 * of a `Platform` value that callers supply; everything in between is modelled.
 */
module Sanitizer {
  import opened Strings

  datatype Attr = Attr(name: string, value: string)

  /** A DOM node: an element, a text node (CDATA sections are text nodes too), or any other
      node kind (comment, processing instruction, ...). */
  datatype Node =
    | Element(tag: string, attrs: seq<Attr>, children: seq<Node>)
    | Text(text: string)
    | Other(data: string)

  /** The foreign capabilities the sanitiser and the validator call. */
  datatype Platform = Platform(
    parse: string -> seq<Node>,          // loadHTML('<div>' . $html . '</div>'): the wrapper's child nodes
    serialize: Node -> string,           // $dom->saveHTML($node)
    removeJavaScript: string -> string,  // the three preg_replace passes of removeJavaScript
    isValidUrl: string -> bool,          // filter_var($url, FILTER_VALIDATE_URL)
    host: string -> Option<string>)      // parse_url($url)['host'], None when parsing fails or there is no host

  const AllowedTags: seq<string> := ["a", "p", "br", "strong", "em", "ul", "ol", "li", "blockquote"]
  const DangerousProtocols: seq<string> := ["javascript:", "data:", "vbscript:", "file:"]
  const MaxLength: nat := 1000
  const NhlDomains: seq<string> := ["nhl.com", "www.nhl.com"]
  const YoutubeDomains: seq<string> :=
    ["youtube.com", "www.youtube.com", "youtu.be", "youtube-nocookie.com", "www.youtube-nocookie.com"]

  /** $allowedAttributes[$tagName] ?? [] */
  function AllowedAttributes(tag: string): seq<string>
  {
    if tag == "a" then ["href", "rel", "target"] else []
  }

  // ---------------------------------------------------------------------------
  // isValidHref

  /** The foreach over the dangerous protocols, returning at the first prefix that matches. */
  function StartsWithAny(url: string, protocols: seq<string>): (r: bool)
    ensures r <==> exists p :: p in protocols && StartsWithCI(url, p)
  {
    if protocols == [] then false
    else if StartsWithCI(url, protocols[0]) then true
    else StartsWithAny(url, protocols[1..])
  }

  /** isValidHref: the trimmed URL has none of the dangerous schemes and, when absolute, is https. */
  function IsValidHref(url: string): (r: bool)
    ensures r <==>
      (forall p :: p in DangerousProtocols ==> !StartsWithCI(Trim(url), p)) &&
      (Contains(Trim(url), "://") ==> StartsWithCI(Trim(url), "https://"))
  {
    var u := Trim(url);
    if StartsWithAny(u, DangerousProtocols) then false
    else if Contains(u, "://") && !StartsWithCI(u, "https://") then false
    else true
  }

  /** Any https URL passes, whatever the case of its scheme. */
  lemma HttpsHrefIsValid(url: string)
    requires StartsWithCI(Trim(url), "https://")
    ensures IsValidHref(url)
  {
    HttpsIsNotDangerous(Trim(url));
  }

  lemma HttpsIsNotDangerous(u: string)
    requires StartsWithCI(u, "https://")
    ensures forall p :: p in DangerousProtocols ==> !StartsWithCI(u, p)
  {
    var https := "https://";
    forall k | 0 <= k < |DangerousProtocols|
      ensures !StartsWithCI(u, DangerousProtocols[k])
    {
      DifferentFirstLetter(u, DangerousProtocols[k], https);
    }
  }

  /** A string that starts with q (ignoring case) does not start with a p whose first letter
      differs from q's. */
  lemma DifferentFirstLetter(u: string, p: string, q: string)
    requires StartsWithCI(u, q) && p != [] && q != [] && LowerChar(p[0]) != LowerChar(q[0])
    ensures !StartsWithCI(u, p)
  {
    LowerAt(u, q, 0);
    if StartsWithCI(u, p) {
      LowerAt(u, p, 0);
    }
  }

  /** An absolute URL whose scheme is not https is rejected. */
  lemma NonHttpsAbsoluteHrefIsInvalid(url: string, i: nat)
    requires OccursAt(Trim(url), "://", i)
    requires !StartsWithCI(Trim(url), "https://")
    ensures !IsValidHref(url)
  {
  }

  predicate NoColon(s: string)
  {
    forall i :: 0 <= i < |s| ==> s[i] != ':'
  }

  lemma ColonFreeLacksScheme(u: string, p: string)
    requires p != [] && p[|p| - 1] == ':'
    requires NoColon(u)
    ensures !StartsWithCI(u, p)
  {
    var k: nat := |p| - 1;
    if StartsWithCI(u, p) {
      LowerAt(u, p, k);
      assert false;
    }
  }

  lemma LowerAt(u: string, p: string, k: nat)
    requires StartsWithCI(u, p) && k < |p|
    ensures LowerChar(u[k]) == LowerChar(p[k])
  {
    assert Lower(u)[..|Lower(p)|][k] == Lower(p)[k];
  }

  /** A reference with no colon at all (relative path, fragment, query) is accepted. */
  lemma SchemelessHrefIsValid(url: string)
    requires NoColon(Trim(url))
    ensures IsValidHref(url)
  {
    ColonFreeIsSafe(Trim(url));
  }

  lemma ColonFreeIsSafe(u: string)
    requires NoColon(u)
    ensures forall p :: p in DangerousProtocols ==> !StartsWithCI(u, p)
    ensures !Contains(u, "://")
  {
    forall p | p in DangerousProtocols
      ensures !StartsWithCI(u, p)
    {
      ColonFreeLacksScheme(u, p);
    }
    if Contains(u, "://") {
      SeparatorHasColon(u);
      assert false;
    }
  }

  lemma SeparatorHasColon(u: string)
    requires Contains(u, "://")
    ensures exists i :: 0 <= i < |u| && u[i] == ':'
  {
    var i :| 0 <= i <= |u| - 3 && OccursAt(u, "://", i);
    assert u[i..i + 3][0] == u[i];
  }

  // ---------------------------------------------------------------------------
  // cleanAttributes

  /** The first loop of cleanAttributes puts an attribute on the removal list exactly when this holds. */
  predicate Rejected(tag: string, a: Attr)
  {
    var name := Lower(a.name);
    name !in AllowedAttributes(tag) || (name == "href" && !IsValidHref(a.value))
  }

  /** The removal list the first loop builds: lower-cased names, in attribute order. */
  function RemovalList(tag: string, attrs: seq<Attr>): seq<string>
  {
    if attrs == [] then []
    else
      var a := attrs[|attrs| - 1];
      RemovalList(tag, attrs[..|attrs| - 1]) + (if Rejected(tag, a) then [Lower(a.name)] else [])
  }

  /** $element->removeAttribute($name). The parser gives attribute names in lower case, so
      the attribute called $name is the one whose lower-cased name is $name. */
  function RemoveAttribute(attrs: seq<Attr>, name: string): seq<Attr>
  {
    if attrs == [] then []
    else
      var a := attrs[|attrs| - 1];
      RemoveAttribute(attrs[..|attrs| - 1], name) + (if Lower(a.name) == name then [] else [a])
  }

  /** The attributes left after removing every name in `names`. */
  function WithoutNames(attrs: seq<Attr>, names: seq<string>): seq<Attr>
  {
    if attrs == [] then []
    else
      var a := attrs[|attrs| - 1];
      WithoutNames(attrs[..|attrs| - 1], names) + (if Lower(a.name) in names then [] else [a])
  }

  /** What cleanAttributes leaves on an element whose lower-cased tag is `tag`. */
  function CleanedAttributes(tag: string, attrs: seq<Attr>): (r: seq<Attr>)
    ensures forall a :: a in r ==> a in attrs && !Rejected(tag, a)
  {
    var names := RemovalList(tag, attrs);
    var r := WithoutNames(attrs, names);
    assert forall a :: a in r ==> a in attrs && !Rejected(tag, a) by {
      forall a | a in r
        ensures a in attrs && !Rejected(tag, a)
      {
        WithoutNamesMembers(attrs, names, a);
        if Rejected(tag, a) {
          RejectedIsListed(tag, attrs, a);
        }
      }
    }
    r
  }

  lemma {:induction false} WithoutNamesStep(attrs: seq<Attr>, names: seq<string>, n: string)
    ensures WithoutNames(attrs, names + [n]) == RemoveAttribute(WithoutNames(attrs, names), n)
  {
    if attrs != [] {
      var init := attrs[..|attrs| - 1];
      WithoutNamesStep(init, names, n);
      RemoveAttributeAppend(WithoutNames(init, names), if Lower(attrs[|attrs| - 1].name) in names then [] else [attrs[|attrs| - 1]], n);
    }
  }

  lemma {:induction false} RemoveAttributeAppend(xs: seq<Attr>, ys: seq<Attr>, n: string)
    ensures RemoveAttribute(xs + ys, n) == RemoveAttribute(xs, n) + RemoveAttribute(ys, n)
    decreases |ys|
  {
    if ys == [] {
      assert xs + ys == xs;
    } else {
      assert (xs + ys)[..|xs + ys| - 1] == xs + ys[..|ys| - 1];
      RemoveAttributeAppend(xs, ys[..|ys| - 1], n);
    }
  }

  /** cleanAttributes: collect the names to remove, then remove them one by one. */
  method CleanAttributes(tag: string, attrs: seq<Attr>) returns (kept: seq<Attr>)
    ensures kept == CleanedAttributes(tag, attrs)
  {
    var toRemove := CollectRemovals(tag, attrs);
    kept := RemoveEach(attrs, toRemove);
  }

  /** The second loop of cleanAttributes: removeAttribute for each collected name, in order. */
  method RemoveEach(attrs: seq<Attr>, toRemove: seq<string>) returns (kept: seq<Attr>)
    ensures kept == WithoutNames(attrs, toRemove)
  {
    WithoutNamesNone(attrs);
    assert toRemove[..0] == [];
    kept := attrs;
    var j := 0;
    while j < |toRemove|
      invariant 0 <= j <= |toRemove|
      invariant kept == WithoutNames(attrs, toRemove[..j])
    {
      WithoutNamesStep(attrs, toRemove[..j], toRemove[j]);
      kept := RemoveAttribute(kept, toRemove[j]);
      assert toRemove[..j + 1] == toRemove[..j] + [toRemove[j]];
      j := j + 1;
    }
    assert toRemove[..j] == toRemove;
  }

  /** The first loop of cleanAttributes: the names of the attributes to remove. */
  method CollectRemovals(tag: string, attrs: seq<Attr>) returns (toRemove: seq<string>)
    ensures toRemove == RemovalList(tag, attrs)
  {
    var allowed := AllowedAttributes(tag);
    toRemove := [];
    var i := 0;
    assert attrs[..0] == [];
    while i < |attrs|
      invariant 0 <= i <= |attrs|
      invariant toRemove == RemovalList(tag, attrs[..i])
    {
      var name := Lower(attrs[i].name);
      RemovalListStep(tag, attrs, i);
      if name !in allowed {
        toRemove := toRemove + [name];
      } else if name == "href" {
        if !IsValidHref(attrs[i].value) {
          toRemove := toRemove + [name];
        }
      }
      i := i + 1;
    }
    assert attrs[..i] == attrs;
  }

  lemma RemovalListStep(tag: string, attrs: seq<Attr>, i: nat)
    requires i < |attrs|
    ensures RemovalList(tag, attrs[..i + 1]) ==
      RemovalList(tag, attrs[..i]) + (if Rejected(tag, attrs[i]) then [Lower(attrs[i].name)] else [])
  {
    assert attrs[..i + 1][..i] == attrs[..i];
  }

  lemma {:induction false} WithoutNamesNone(attrs: seq<Attr>)
    ensures WithoutNames(attrs, []) == attrs
  {
    if attrs != [] {
      WithoutNamesNone(attrs[..|attrs| - 1]);
    }
  }

  lemma {:induction false} RejectedIsListed(tag: string, attrs: seq<Attr>, a: Attr)
    requires a in attrs && Rejected(tag, a)
    ensures Lower(a.name) in RemovalList(tag, attrs)
  {
    var init := attrs[..|attrs| - 1];
    if a != attrs[|attrs| - 1] {
      assert a in init;
      RejectedIsListed(tag, init, a);
    }
  }

  lemma {:induction false} ListedIsRejected(tag: string, attrs: seq<Attr>, n: string)
    requires n in RemovalList(tag, attrs)
    ensures exists a :: a in attrs && Rejected(tag, a) && Lower(a.name) == n
  {
    var init := attrs[..|attrs| - 1];
    if n in RemovalList(tag, init) {
      ListedIsRejected(tag, init, n);
      var a :| a in init && Rejected(tag, a) && Lower(a.name) == n;
      assert a in attrs;
    }
  }

  lemma {:induction false} WithoutNamesMembers(attrs: seq<Attr>, names: seq<string>, a: Attr)
    ensures a in WithoutNames(attrs, names) <==> a in attrs && Lower(a.name) !in names
  {
    if attrs != [] {
      WithoutNamesMembers(attrs[..|attrs| - 1], names, a);
      assert attrs == attrs[..|attrs| - 1] + [attrs[|attrs| - 1]];
    }
  }

  /** After cleanAttributes an element other than `a` has no attributes, and an `a` keeps only
      href, rel and target, its href (if any) passing isValidHref. */
  lemma CleanedAttributesAllowlist(tag: string, attrs: seq<Attr>)
    ensures tag != "a" ==> CleanedAttributes(tag, attrs) == []
    ensures forall a :: a in CleanedAttributes(tag, attrs) ==>
      a in attrs && Lower(a.name) in AllowedAttributes(tag) &&
      (Lower(a.name) == "href" ==> IsValidHref(a.value))
  {
    if tag != "a" {
      forall a | a in attrs
        ensures Lower(a.name) in RemovalList(tag, attrs)
      {
        RejectedIsListed(tag, attrs, a);
      }
      AllNamedRemoved(attrs, RemovalList(tag, attrs));
    }
  }

  lemma {:induction false} AllNamedRemoved(attrs: seq<Attr>, names: seq<string>)
    requires forall a :: a in attrs ==> Lower(a.name) in names
    ensures WithoutNames(attrs, names) == []
  {
    if attrs != [] {
      AllNamedRemoved(attrs[..|attrs| - 1], names);
      assert attrs[|attrs| - 1] in attrs;
    }
  }

  /** Attribute names of one DOM element are distinct (after lower-casing). */
  predicate DistinctNames(attrs: seq<Attr>)
  {
    forall i, j :: 0 <= i < j < |attrs| ==> Lower(attrs[i].name) != Lower(attrs[j].name)
  }

  /** On a DOM element, whose attribute names are distinct, an attribute survives exactly when
      the allowlist and the href check accept it. */
  lemma CleanedAttributesKeepsAccepted(tag: string, attrs: seq<Attr>, a: Attr)
    requires DistinctNames(attrs)
    ensures a in CleanedAttributes(tag, attrs) <==> a in attrs && !Rejected(tag, a)
  {
    WithoutNamesMembers(attrs, RemovalList(tag, attrs), a);
    if a in attrs && !Rejected(tag, a) && Lower(a.name) in RemovalList(tag, attrs) {
      ListedIsRejected(tag, attrs, Lower(a.name));
    }
    if a in CleanedAttributes(tag, attrs) && Rejected(tag, a) {
      RejectedIsListed(tag, attrs, a);
    }
  }

  // ---------------------------------------------------------------------------
  // sanitizeNode

  predicate IsAllowedTag(tag: string)
  {
    Lower(tag) in AllowedTags
  }

  /** The child list of a node after sanitizeNode, as the code does it: an allowed element has
      its attributes cleaned and is sanitised in turn; a disallowed element is replaced by its
      children exactly as they are (they are neither classified, cleaned nor recursed into);
      text is kept; every other node kind is dropped. */
  function SanitizedChildren(kids: seq<Node>): seq<Node>
    decreases kids, 1
  {
    if kids == [] then []
    else SanitizedChildren(kids[..|kids| - 1]) + Replacement(kids[|kids| - 1])
  }

  /** What the tree pass puts in place of one child. */
  function Replacement(c: Node): seq<Node>
    decreases c, 0
  {
    match c
    case Element(tag, attrs, children) =>
      if IsAllowedTag(tag) then [Element(tag, CleanedAttributes(Lower(tag), attrs), SanitizedChildren(children))]
      else children
    case Text(_) => [c]
    case Other(_) => []
  }

  /** What the first loop of sanitizeNode decides for one child. */
  datatype Disposition = Keep | Process(attrs: seq<Attr>) | Unwrap | Discard

  /** The decision for one child: clean an allowed element's attributes, unwrap a disallowed
      element, keep text, remove anything else. */
  function DispositionOf(c: Node): Disposition
  {
    match c
    case Element(tag, attrs, _) => if IsAllowedTag(tag) then Process(CleanedAttributes(Lower(tag), attrs)) else Unwrap
    case Text(_) => Keep
    case Other(_) => Discard
  }

  /** sanitizeNode on a node with child list `children`; returns the new child list.
      The first loop classifies the children and cleans the attributes of the allowed ones;
      the second removes the others (moving a removed element's children into its place)
      and sanitises each allowed child. */
  method SanitizeNode(children: seq<Node>) returns (result: seq<Node>)
    ensures result == SanitizedChildren(children)
    decreases children, 1
  {
    var plan := Classify(children);
    result := ApplyPlan(children, plan);
  }

  /** The first loop of sanitizeNode. */
  method Classify(children: seq<Node>) returns (plan: seq<Disposition>)
    ensures |plan| == |children| && forall k :: 0 <= k < |children| ==> plan[k] == DispositionOf(children[k])
  {
    plan := [];
    var i := 0;
    while i < |children|
      invariant 0 <= i <= |children| && |plan| == i
      invariant forall k :: 0 <= k < i ==> plan[k] == DispositionOf(children[k])
    {
      var child := children[i];
      match child {
        case Element(tag, attrs, _) =>
          var tagName := Lower(tag);
          if tagName !in AllowedTags {
            plan := plan + [Unwrap];
          } else {
            var kept := CleanAttributes(tagName, attrs);
            plan := plan + [Process(kept)];
          }
        case Text(_) =>
          plan := plan + [Keep];
        case Other(_) =>
          plan := plan + [Discard];
      }
      i := i + 1;
    }
  }

  /** The second loop of sanitizeNode, following the plan of the first. */
  method ApplyPlan(children: seq<Node>, plan: seq<Disposition>) returns (result: seq<Node>)
    requires |plan| == |children| && forall k :: 0 <= k < |children| ==> plan[k] == DispositionOf(children[k])
    ensures result == SanitizedChildren(children)
    decreases children, 0
  {
    result := [];
    var j := 0;
    while j < |children|
      invariant 0 <= j <= |children|
      invariant result == SanitizedChildren(children[..j])
    {
      var child := children[j];
      assert children[..j + 1][..j] == children[..j];
      match plan[j] {
        case Keep =>
          result := result + [child];
        case Process(kept) =>
          var inner := SanitizeNode(child.children);
          result := result + [Element(child.tag, kept, inner)];
        case Unwrap =>
          result := result + child.children;
        case Discard =>
      }
      j := j + 1;
    }
    assert children[..j] == children;
  }

  /** sanitizeNode distributes over concatenation of child lists. */
  lemma {:induction false} SanitizedChildrenAppend(xs: seq<Node>, ys: seq<Node>)
    ensures SanitizedChildren(xs + ys) == SanitizedChildren(xs) + SanitizedChildren(ys)
    decreases |ys|
  {
    if ys == [] {
      assert xs + ys == xs;
    } else {
      var init, c := ys[..|ys| - 1], ys[|ys| - 1];
      assert (xs + ys)[..|xs + ys| - 1] == xs + init;
      assert (xs + ys)[|xs + ys| - 1] == c;
      SanitizedChildrenSnoc(xs + ys);
      SanitizedChildrenSnoc(ys);
      SanitizedChildrenAppend(xs, init);
    }
  }

  lemma SanitizedChildrenSnoc(kids: seq<Node>)
    requires kids != []
    ensures SanitizedChildren(kids) ==
      SanitizedChildren(kids[..|kids| - 1]) + SanitizedChildren([kids[|kids| - 1]])
  {
    var c := kids[|kids| - 1];
    var one := [c];
    assert one[..|one| - 1] == [];
    assert SanitizedChildren(one) == SanitizedChildren([]) + Replacement(c);
    assert [] + Replacement(c) == Replacement(c);
  }

  /** How sanitizeNode treats one direct child standing between `before` and `after`:
      a disallowed element gives way to its own children, in order, at its former position;
      a text node stays as it is; any other node kind is removed without hoisting; an allowed
      element stays, with cleaned attributes and sanitised children. */
  lemma DirectChild(before: seq<Node>, c: Node, after: seq<Node>)
    ensures SanitizedChildren(before + [c] + after) ==
      SanitizedChildren(before) +
      (match c
       case Element(tag, attrs, children) =>
         if IsAllowedTag(tag) then [Element(tag, CleanedAttributes(Lower(tag), attrs), SanitizedChildren(children))]
         else children
       case Text(_) => [c]
       case Other(_) => []) +
      SanitizedChildren(after)
  {
    SanitizedChildrenAppend(before + [c], after);
    SanitizedChildrenAppend(before, [c]);
    assert [c][..0] == [];
  }

  // ---------------------------------------------------------------------------
  // Properties of the tree pass

  /** The character data of a forest, in document order (other node kinds carry none). */
  function TextOf(kids: seq<Node>): string
  {
    if kids == [] then ""
    else
      var c := kids[|kids| - 1];
      TextOf(kids[..|kids| - 1]) +
      match c
      case Element(_, _, children) => TextOf(children)
      case Text(t) => t
      case Other(_) => ""
  }

  lemma {:induction false} TextOfAppend(xs: seq<Node>, ys: seq<Node>)
    ensures TextOf(xs + ys) == TextOf(xs) + TextOf(ys)
    decreases |ys|
  {
    if ys == [] {
      assert xs + ys == xs;
    } else {
      var init, c := ys[..|ys| - 1], ys[|ys| - 1];
      assert (xs + ys)[..|xs + ys| - 1] == xs + init;
      assert (xs + ys)[|xs + ys| - 1] == c;
      TextOfSnoc(xs + ys);
      TextOfSnoc(ys);
      TextOfAppend(xs, init);
    }
  }

  lemma TextOfSnoc(kids: seq<Node>)
    requires kids != []
    ensures TextOf(kids) == TextOf(kids[..|kids| - 1]) + TextOf([kids[|kids| - 1]])
  {
    var one := [kids[|kids| - 1]];
    assert one[..|one| - 1] == [];
    assert one[|one| - 1] == kids[|kids| - 1];
  }

  /** The tree pass as written keeps every piece of text, in order: an unwrapped element's
      text survives in its hoisted children, and only nodes without text are dropped. */
  lemma {:induction false} SanitizePreservesText(kids: seq<Node>)
    ensures TextOf(SanitizedChildren(kids)) == TextOf(kids)
  {
    if kids != [] {
      var init, c := kids[..|kids| - 1], kids[|kids| - 1];
      SanitizePreservesText(init);
      match c {
        case Element(tag, attrs, children) =>
          if IsAllowedTag(tag) {
            SanitizePreservesText(children);
            var e := Element(tag, CleanedAttributes(Lower(tag), attrs), SanitizedChildren(children));
            TextOfAppend(SanitizedChildren(init), [e]);
            assert [e][..0] == [];
          } else {
            TextOfAppend(SanitizedChildren(init), children);
          }
        case Text(_) =>
          TextOfAppend(SanitizedChildren(init), [c]);
          assert [c][..0] == [];
        case Other(_) =>
          assert SanitizedChildren(kids) == SanitizedChildren(init);
          assert TextOf(kids) == TextOf(init);
      }
    }
  }

  /** Attributes that a kept element may carry. */
  predicate CleanAttrs(tag: string, attrs: seq<Attr>)
  {
    forall a :: a in attrs ==>
      Lower(a.name) in AllowedAttributes(Lower(tag)) && (Lower(a.name) == "href" ==> IsValidHref(a.value))
  }

  /** A forest the sanitiser was meant to produce: every element has an allowed tag and allowed
      attributes, and there is nothing but elements and text. */
  predicate CleanForest(kids: seq<Node>)
  {
    if kids == [] then true
    else
      CleanForest(kids[..|kids| - 1]) &&
      match kids[|kids| - 1]
      case Element(tag, attrs, children) => IsAllowedTag(tag) && CleanAttrs(tag, attrs) && CleanForest(children)
      case Text(_) => true
      case Other(_) => false
  }

  lemma {:induction false} CleanForestAppend(xs: seq<Node>, ys: seq<Node>)
    ensures CleanForest(xs + ys) <==> CleanForest(xs) && CleanForest(ys)
    decreases |ys|
  {
    if ys == [] {
      assert xs + ys == xs;
    } else {
      assert (xs + ys)[..|xs + ys| - 1] == xs + ys[..|ys| - 1];
      CleanForestAppend(xs, ys[..|ys| - 1]);
    }
  }

  lemma CleanedElementIsClean(tag: string, attrs: seq<Attr>, children: seq<Node>)
    requires IsAllowedTag(tag) && CleanForest(children)
    ensures CleanForest([Element(tag, CleanedAttributes(Lower(tag), attrs), children)])
  {
    CleanedAttributesAllowlist(Lower(tag), attrs);
    assert [Element(tag, CleanedAttributes(Lower(tag), attrs), children)][..0] == [];
  }

  /** Inputs on which the code's sanitiser behaves as intended: every disallowed element that
      is reached holds text only, so unwrapping never moves an element or a comment. */
  predicate UnwrapsOnlyText(kids: seq<Node>)
  {
    if kids == [] then true
    else
      UnwrapsOnlyText(kids[..|kids| - 1]) &&
      match kids[|kids| - 1]
      case Element(tag, _, children) =>
        if IsAllowedTag(tag) then UnwrapsOnlyText(children)
        else forall i :: 0 <= i < |children| ==> children[i].Text?
      case Text(_) => true
      case Other(_) => true
  }

  lemma {:induction false} TextOnlyIsClean(kids: seq<Node>)
    requires forall i :: 0 <= i < |kids| ==> kids[i].Text?
    ensures CleanForest(kids)
  {
    if kids != [] {
      TextOnlyIsClean(kids[..|kids| - 1]);
    }
  }

  /** Within that boundary the output of the code's tree pass is clean. */
  lemma {:induction false} SanitizedCleanWhenUnwrapsOnlyText(kids: seq<Node>)
    requires UnwrapsOnlyText(kids)
    ensures CleanForest(SanitizedChildren(kids))
  {
    if kids != [] {
      var init, c := kids[..|kids| - 1], kids[|kids| - 1];
      SanitizedCleanWhenUnwrapsOnlyText(init);
      match c {
        case Element(tag, attrs, children) =>
          if IsAllowedTag(tag) {
            SanitizedCleanWhenUnwrapsOnlyText(children);
            CleanedElementIsClean(tag, attrs, SanitizedChildren(children));
            CleanForestAppend(SanitizedChildren(init), [Element(tag, CleanedAttributes(Lower(tag), attrs), SanitizedChildren(children))]);
          } else {
            TextOnlyIsClean(children);
            CleanForestAppend(SanitizedChildren(init), children);
          }
        case Text(_) =>
          CleanForestAppend(SanitizedChildren(init), [c]);
          assert [c][..0] == [];
        case Other(_) =>
          assert SanitizedChildren(kids) == SanitizedChildren(init);
      }
    }
  }

  /** A disallowed element wrapping another disallowed element: the inner one, with its
      attributes, comes out of the code's tree pass untouched. */
  lemma UnwrappedChildrenEscapeTheAllowlist()
    ensures
      var inner := Element("iframe", [Attr("src", "https://evil.example/")], []);
      SanitizedChildren([Element("div", [], [inner])]) == [inner] &&
      !CleanForest(SanitizedChildren([Element("div", [], [inner])]))
  {
    var inner := Element("iframe", [Attr("src", "https://evil.example/")], []);
    assert !IsAllowedTag("div") by {
      assert Lower("div") == "div";
    }
    assert !IsAllowedTag("iframe") by {
      assert Lower("iframe") == "iframe";
    }
    assert [Element("div", [], [inner])][..0] == [];
    assert [inner][..0] == [];
  }

  /** The tree pass as intended: the children of a disallowed element are hoisted and then
      subjected to the same rules at their new depth. */
  function SanitizedChildrenIntended(kids: seq<Node>): seq<Node>
  {
    if kids == [] then []
    else
      var c := kids[|kids| - 1];
      SanitizedChildrenIntended(kids[..|kids| - 1]) +
      match c
      case Element(tag, attrs, children) =>
        if IsAllowedTag(tag) then [Element(tag, CleanedAttributes(Lower(tag), attrs), SanitizedChildrenIntended(children))]
        else SanitizedChildrenIntended(children)
      case Text(_) => [c]
      case Other(_) => []
  }

  /** The intended pass always yields a clean forest. */
  lemma {:induction false} IntendedIsClean(kids: seq<Node>)
    ensures CleanForest(SanitizedChildrenIntended(kids))
  {
    if kids != [] {
      var init, c := kids[..|kids| - 1], kids[|kids| - 1];
      IntendedIsClean(init);
      match c {
        case Element(tag, attrs, children) =>
          IntendedIsClean(children);
          if IsAllowedTag(tag) {
            CleanedElementIsClean(tag, attrs, SanitizedChildrenIntended(children));
            CleanForestAppend(SanitizedChildrenIntended(init), [Element(tag, CleanedAttributes(Lower(tag), attrs), SanitizedChildrenIntended(children))]);
          } else {
            CleanForestAppend(SanitizedChildrenIntended(init), SanitizedChildrenIntended(children));
          }
        case Text(_) =>
          CleanForestAppend(SanitizedChildrenIntended(init), [c]);
          assert [c][..0] == [];
        case Other(_) =>
          assert SanitizedChildrenIntended(kids) == SanitizedChildrenIntended(init);
      }
    }
  }

  /** The intended pass keeps every piece of text, in order. */
  lemma {:induction false} IntendedPreservesText(kids: seq<Node>)
    ensures TextOf(SanitizedChildrenIntended(kids)) == TextOf(kids)
  {
    if kids != [] {
      var init, c := kids[..|kids| - 1], kids[|kids| - 1];
      IntendedPreservesText(init);
      match c {
        case Element(tag, attrs, children) =>
          IntendedPreservesText(children);
          if IsAllowedTag(tag) {
            var e := Element(tag, CleanedAttributes(Lower(tag), attrs), SanitizedChildrenIntended(children));
            TextOfAppend(SanitizedChildrenIntended(init), [e]);
            assert [e][..0] == [];
          } else {
            TextOfAppend(SanitizedChildrenIntended(init), SanitizedChildrenIntended(children));
          }
        case Text(_) =>
          TextOfAppend(SanitizedChildrenIntended(init), [c]);
          assert [c][..0] == [];
        case Other(_) =>
          assert SanitizedChildrenIntended(kids) == SanitizedChildrenIntended(init);
          assert TextOf(kids) == TextOf(init);
      }
    }
  }

  /** Where the code's pass behaves as intended, the two passes agree. */
  lemma {:induction false} IntendedAgreesWhenUnwrapsOnlyText(kids: seq<Node>)
    requires UnwrapsOnlyText(kids)
    ensures SanitizedChildrenIntended(kids) == SanitizedChildren(kids)
  {
    if kids != [] {
      var init, c := kids[..|kids| - 1], kids[|kids| - 1];
      IntendedAgreesWhenUnwrapsOnlyText(init);
      match c {
        case Element(tag, attrs, children) =>
          if IsAllowedTag(tag) {
            IntendedAgreesWhenUnwrapsOnlyText(children);
          } else {
            IntendedFixesText(children);
          }
        case Text(_) =>
        case Other(_) =>
      }
    }
  }

  lemma {:induction false} IntendedFixesText(kids: seq<Node>)
    requires forall i :: 0 <= i < |kids| ==> kids[i].Text?
    ensures SanitizedChildrenIntended(kids) == kids
  {
    if kids != [] {
      IntendedFixesText(kids[..|kids| - 1]);
    }
  }

  // ---------------------------------------------------------------------------
  // sanitizeHtml

  /** The concatenation of $dom->saveHTML($node) over the wrapper's children. */
  function Serialized(p: Platform, nodes: seq<Node>): string
  {
    if nodes == [] then "" else Serialized(p, nodes[..|nodes| - 1]) + p.serialize(nodes[|nodes| - 1])
  }

  /** The closing `trim($result) !== '' ? trim($result) : null`. */
  function TrimmedOrNull(out: string): (r: Option<string>)
    ensures r.Some? ==> r.value != "" && Trim(r.value) == r.value
    ensures r.Some? ==> r.value == Trim(out)
    ensures r.None? <==> IsBlank(out)
  {
    var t := Trim(out);
    if t != "" then
      TrimIdempotent(out);
      assert !IsBlank(out) by { TrimEmptyIffBlank(out); }
      Some(t)
    else
      assert IsBlank(out) by { TrimEmptyIffBlank(out); }
      None
  }

  /** The input after the length limit: its first 1000 bytes. */
  function Truncated(html: string): (r: string)
    ensures |r| <= MaxLength && |r| <= |html| && r == html[..|r|]
    ensures |html| <= MaxLength ==> r == html
  {
    if |html| > MaxLength then html[..MaxLength] else html
  }

  /** sanitizeHtml as a function of its input: the blank check, the cut to 1000 bytes, the
      tree pass over the parsed fragment, serialisation, the regular-expression pass, trim. */
  function SanitizedHtml(p: Platform, html: Option<string>): (r: Option<string>)
    ensures html.None? ==> r.None?
    ensures html.Some? && IsBlank(html.value) ==> r.None?
    ensures r.Some? ==> r.value != "" && Trim(r.value) == r.value
  {
    if html.None? then None
    else if Trim(html.value) == "" then TrimEmptyIffBlank(html.value); None
    else
      TrimEmptyIffBlank(html.value);
      Emitted(p, SanitizedChildren(p.parse(Truncated(html.value))))
  }

  /** What sanitizeHtml returns for the wrapper's sanitised child list: the serialised
      children, the regular-expression pass, trim, null for nothing left. */
  function Emitted(p: Platform, forest: seq<Node>): (r: Option<string>)
    ensures r.Some? ==> r.value != "" && Trim(r.value) == r.value
  {
    TrimmedOrNull(p.removeJavaScript(Serialized(p, forest)))
  }

  /** sanitizeHtml with the corrected tree pass: the intended behaviour, which the source does
      not implement (the admin pages call the pass as written, SanitizedHtml). */
  function SanitizedHtmlIntended(p: Platform, html: Option<string>): (r: Option<string>)
    ensures html.None? ==> r.None?
    ensures html.Some? && IsBlank(html.value) ==> r.None?
    ensures r.Some? ==> r.value != "" && Trim(r.value) == r.value
  {
    if html.None? then None
    else if Trim(html.value) == "" then TrimEmptyIffBlank(html.value); None
    else
      TrimEmptyIffBlank(html.value);
      Emitted(p, SanitizedChildrenIntended(p.parse(Truncated(html.value))))
  }

  /** With the corrected pass, whatever a non-blank input yields is emitted from a forest that
      holds only allowed elements with allowed attributes and text, and that keeps all of the
      parsed fragment's text. */
  lemma IntendedHtmlComesFromCleanForest(p: Platform, html: string)
    requires !IsBlank(html)
    ensures var forest := SanitizedChildrenIntended(p.parse(Truncated(html)));
      CleanForest(forest) && TextOf(forest) == TextOf(p.parse(Truncated(html))) &&
      SanitizedHtmlIntended(p, Some(html)) == Emitted(p, forest)
  {
    IntendedIsClean(p.parse(Truncated(html)));
    IntendedPreservesText(p.parse(Truncated(html)));
    TrimEmptyIffBlank(html);
  }

  /** The cut happens before parsing: a non-blank input longer than 1000 bytes is sanitised
      exactly as its first 1000 bytes are. */
  lemma CutBeforeParse(p: Platform, html: string)
    requires |html| > MaxLength && !IsBlank(html[..MaxLength])
    ensures SanitizedHtml(p, Some(html)) == SanitizedHtml(p, Some(html[..MaxLength]))
  {
    var cut := html[..MaxLength];
    assert Trim(cut) != "" by { TrimEmptyIffBlank(cut); }
    assert Trim(html) != "" by {
      var i :| 0 <= i < MaxLength && !IsTrimChar(cut[i]);
      assert html[i] == cut[i];
      TrimEmptyIffBlank(html);
    }
    assert Truncated(html) == cut == Truncated(cut);
  }

  /** The foreach of sanitizeHtml that appends $dom->saveHTML($child) for each child of the
      wrapper element, in document order. */
  method SerializeEach(p: Platform, nodes: seq<Node>) returns (result: string)
    ensures result == Serialized(p, nodes)
  {
    result := "";
    var i := 0;
    while i < |nodes|
      invariant 0 <= i <= |nodes|
      invariant result == Serialized(p, nodes[..i])
    {
      assert nodes[..i + 1][..i] == nodes[..i];
      result := result + p.serialize(nodes[i]);
      i := i + 1;
    }
    assert nodes[..i] == nodes;
  }

  /** sanitizeHtml with its loops: the tree pass, then the foreach that appends the markup
      of each child of the wrapper. */
  method SanitizeHtml(p: Platform, html: Option<string>) returns (r: Option<string>)
    ensures r == SanitizedHtml(p, html)
  {
    if html.None? {
      return None;
    }
    if Trim(html.value) == "" {
      return None;
    }
    var input := html.value;
    if |input| > MaxLength {
      input := input[..MaxLength];
    }
    var wrapperChildren := SanitizeNode(p.parse(input));
    var result := SerializeEach(p, wrapperChildren);
    result := p.removeJavaScript(result);
    r := TrimmedOrNull(result);
    assert r == Emitted(p, SanitizedChildren(p.parse(input)));
    assert input == Truncated(html.value);
  }

  // ---------------------------------------------------------------------------
  // sanitizeUrl

  /** The allowlist test for one entry: the host is the entry or a subdomain of it. */
  predicate DomainMatches(domain: string, allowed: string)
  {
    domain == allowed || EndsWith(domain, "." + allowed)
  }

  /** The foreach over the allowlist that breaks at the first entry that matches. */
  function DomainAllowed(domain: string, allowedDomains: seq<string>): (r: bool)
    ensures r <==> exists e :: e in allowedDomains && DomainMatches(domain, e)
  {
    if allowedDomains == [] then false
    else if DomainMatches(domain, allowedDomains[0]) then true
    else DomainAllowed(domain, allowedDomains[1..])
  }

  /** A label-boundary view of DomainMatches: the entry is a suffix of the host that starts
      the host or follows a dot. */
  lemma DomainMatchesAtLabelBoundary(domain: string, allowed: string)
    ensures DomainMatches(domain, allowed) <==>
      exists k :: 0 <= k <= |domain| && domain[k..] == allowed && (k == 0 || domain[k - 1] == '.')
  {
    if DomainMatches(domain, allowed) {
      if domain == allowed {
        assert domain[0..] == allowed;
      } else {
        var k := |domain| - |allowed|;
        var tail := domain[k - 1..];
        assert tail == "." + allowed;
        assert tail[1..] == allowed && domain[k..] == tail[1..];
        assert domain[k - 1] == tail[0] == '.';
      }
    }
    if exists k :: 0 <= k <= |domain| && domain[k..] == allowed && (k == 0 || domain[k - 1] == '.') {
      var k :| 0 <= k <= |domain| && domain[k..] == allowed && (k == 0 || domain[k - 1] == '.');
      if k == 0 {
        assert domain == domain[0..];
      } else {
        assert domain[k - 1..] == [domain[k - 1]] + domain[k..];
      }
    }
  }

  /** A host that merely ends in the entry's text, without a dot before it, does not match it. */
  lemma NoMatchWithoutDot(prefix: string, allowed: string)
    requires prefix != [] && prefix[|prefix| - 1] != '.'
    ensures !DomainMatches(prefix + allowed, allowed)
  {
    var d := prefix + allowed;
    if EndsWith(d, "." + allowed) {
      SuffixStart(d, "." + allowed);
      assert false;
    }
  }

  lemma SuffixStart(s: string, suffix: string)
    requires suffix != [] && EndsWith(s, suffix)
    ensures s[|s| - |suffix|] == suffix[0]
  {
    assert s[|s| - |suffix|..][0] == suffix[0];
  }

  lemma NhlExamples()
    ensures !DomainAllowed("evilnhl.com", NhlDomains)
    ensures DomainAllowed("x.nhl.com", NhlDomains)
    ensures DomainAllowed("www.nhl.com", NhlDomains)
  {
    NoMatchWithoutDot("evil", "nhl.com");
    assert "evil" + "nhl.com" == "evilnhl.com";
    assert !DomainMatches("evilnhl.com", "www.nhl.com");
    assert "x.nhl.com"[|"x.nhl.com"| - |".nhl.com"|..] == ".nhl.com";
  }

  function DomainsFor(context: string): seq<string>
  {
    if context == "nhl_goal" then NhlDomains else if context == "youtube" then YoutubeDomains else []
  }

  /** sanitizeUrl: returns the trimmed URL unchanged when it passes every check, else None. */
  function SanitizeUrl(p: Platform, url: Option<string>, context: string): (r: Option<string>)
    ensures url.None? ==> r.None?
    ensures r.Some? ==>
      url.Some? && r.value == Trim(url.value) && r.value != "" && |r.value| <= MaxLength &&
      StartsWithCI(r.value, "https://") && p.isValidUrl(r.value)
    ensures r.Some? && (context == "nhl_goal" || context == "youtube") ==>
      p.host(r.value).Some? &&
      exists e :: e in DomainsFor(context) && DomainMatches(Lower(p.host(r.value).value), e)
    ensures context != "nhl_goal" && context != "youtube" && url.Some? ==>
      (r.Some? <==> Trim(url.value) != "" && |Trim(url.value)| <= MaxLength &&
                    StartsWithCI(Trim(url.value), "https://") && p.isValidUrl(Trim(url.value)))
  {
    if url.None? || Trim(url.value) == "" then None
    else
      var u := Trim(url.value);
      if |u| > MaxLength then None
      else if !StartsWithCI(u, "https://") then None
      else if context != "nhl_goal" && context != "youtube" then
        if p.isValidUrl(u) then Some(u) else None
      else
        var host := p.host(u);
        if host.None? then None
        else if !DomainAllowed(Lower(host.value), DomainsFor(context)) then None
        else if p.isValidUrl(u) then Some(u) else None
  }

  /** For the two domain contexts the allowlist decides in both directions: a well-formed https
      URL of bounded length is accepted exactly when its host matches an entry. */
  lemma SanitizeUrlDomainIff(p: Platform, url: string, context: string)
    requires context == "nhl_goal" || context == "youtube"
    requires Trim(url) != "" && |Trim(url)| <= MaxLength && StartsWithCI(Trim(url), "https://")
    requires p.isValidUrl(Trim(url)) && p.host(Trim(url)).Some?
    ensures SanitizeUrl(p, Some(url), context).Some? <==>
      DomainAllowed(Lower(p.host(Trim(url)).value), DomainsFor(context))
  {
  }
}
