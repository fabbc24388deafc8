/**
 * The render engine: the scene list built from the lesson data, and the HTML of a code
 * scene, one fragment per source line, each line highlighted with the state the lines
 * before it left behind, and annotated when an anchor of the current steps occurs in it.
 */
module RenderEngine {
  import opened Text
  import opened Html
  import opened Highlighter
  import Patterns

  /** An annotation: the anchor text it attaches to, and what its phantom row shows. */
  datatype Note = Note(anchor: string, title: string, content: string)

  /** A step of a unit; `add` is the list of annotations it adds, when present. */
  datatype Step = Step(add: Option<seq<Note>>)

  datatype Unit = Unit(id: string, title: string, code: string, steps: Option<seq<Step>>)

  /** The lesson data; a missing `intro` or `units` is skipped. */
  datatype Data<I> = Data(intro: Option<seq<I>>, units: Option<seq<Unit>>)

  datatype Scene<I> =
    | Intro(content: I)
    | CodeOverview(unitId: string, title: string, code: string, steps: seq<Step>)

  /** `unit.steps || []`. */
  function StepsOrEmpty(steps: Option<seq<Step>>): seq<Step> {
    if steps.Some? then steps.value else []
  }

  function Intros<I>(data: Data<I>): seq<I> {
    if data.intro.Some? then data.intro.value else []
  }

  function Units<I>(data: Data<I>): seq<Unit> {
    if data.units.Some? then data.units.value else []
  }

  /** `buildScenes(data)`: every intro item in order, then one overview per unit in order. */
  method BuildScenes<I>(data: Data<I>) returns (scenes: seq<Scene<I>>)
    ensures |scenes| == |Intros(data)| + |Units(data)|
    ensures forall i :: 0 <= i < |Intros(data)| ==> scenes[i] == Intro(Intros(data)[i])
    ensures forall j :: 0 <= j < |Units(data)| ==>
      var u := Units(data)[j];
      scenes[|Intros(data)| + j] == CodeOverview(u.id, u.title, u.code, StepsOrEmpty(u.steps))
  {
    scenes := [];
    if data.intro.Some? {
      var items := data.intro.value;
      var i := 0;
      while i < |items|
        invariant i <= |items|
        invariant |scenes| == i
        invariant forall k :: 0 <= k < i ==> scenes[k] == Intro(items[k])
      {
        scenes := scenes + [Intro(items[i])];
        i := i + 1;
      }
    }
    if data.units.Some? {
      var units := data.units.value;
      var n := |scenes|;
      var j := 0;
      while j < |units|
        invariant j <= |units|
        invariant |scenes| == n + j
        invariant forall k :: 0 <= k < n ==> scenes[k] == Intro(Intros(data)[k])
        invariant forall k :: 0 <= k < j ==>
          scenes[n + k] == CodeOverview(units[k].id, units[k].title, units[k].code, StepsOrEmpty(units[k].steps))
      {
        var u := units[j];
        scenes := scenes + [CodeOverview(u.id, u.title, u.code, StepsOrEmpty(u.steps))];
        j := j + 1;
      }
    }
  }

  // ---------------------------------------------------------------------------------
  // Lines

  /** `code.replace(/\r/g, '')`. */
  function StripCR(s: string): string {
    ReplaceChar(s, '\r', "")
  }

  lemma {:induction false} StripCRSpec(s: string)
    ensures '\r' !in StripCR(s)
    ensures CountChar(StripCR(s), '\n') == CountChar(s, '\n')
    ensures '\r' !in s ==> StripCR(s) == s
  {
    if s != [] {
      StripCRSpec(s[1..]);
      var h := if s[0] == '\r' then "" else [s[0]];
      assert StripCR(s) == h + StripCR(s[1..]);
      CountCharAppend(h, StripCR(s[1..]), '\n');
      if s[0] != '\r' {
        assert s == [s[0]] + s[1..];
        CountCharAppend([s[0]], s[1..], '\n');
      } else {
        assert s == [s[0]] + s[1..];
        CountCharAppend([s[0]], s[1..], '\n');
      }
      if '\r' !in s {
        assert forall c :: c in s[1..] ==> c in s;
      }
    }
  }

  /**
   * The carriage returns and nothing else go: `StripCR` works piece by piece, drops a
   * lone `\r` and keeps every other character as it is.
   */
  lemma StripCRPieces(a: string, b: string, c: char)
    ensures StripCR(a + b) == StripCR(a) + StripCR(b)
    ensures StripCR(['\r']) == []
    ensures c != '\r' ==> StripCR([c]) == [c]
  {
    ReplaceCharAppend(a, b, '\r', "");
    assert ['\r'][1..] == [] && [c][1..] == [];
  }

  /** `s.split(sep)` for a one-character separator: the pieces between separators. */
  function Split(s: string, sep: char): (r: seq<string>)
    ensures |r| >= 1
  {
    if s == [] then [""]
    else if s[0] == sep then [""] + Split(s[1..], sep)
    else var t := Split(s[1..], sep); [[s[0]] + t[0]] + t[1..]
  }

  /** `parts.join(sep)`. */
  function Join(parts: seq<string>, sep: string): string
    requires |parts| >= 1
  {
    if |parts| == 1 then parts[0] else parts[0] + sep + Join(parts[1..], sep)
  }

  /** Splitting and joining again gives the text back; there is one piece per separator, plus one. */
  lemma {:induction false} SplitJoin(s: string, sep: char)
    ensures Join(Split(s, sep), [sep]) == s
    ensures |Split(s, sep)| == CountChar(s, sep) + 1
    ensures forall k :: 0 <= k < |Split(s, sep)| ==> sep !in Split(s, sep)[k]
  {
    if s != [] {
      SplitJoin(s[1..], sep);
      var t := Split(s[1..], sep);
      if s[0] == sep {
        assert Split(s, sep)[1..] == t;
        assert s == [sep] + s[1..];
      } else {
        var r := Split(s, sep);
        assert r[0] == [s[0]] + t[0] && r[1..] == t[1..];
        if |t| == 1 {
          assert s == [s[0]] + t[0];
        } else {
          assert t == [t[0]] + t[1..];
          assert Join(t, [sep]) == t[0] + [sep] + Join(t[1..], [sep]);
          assert s == [s[0]] + (t[0] + [sep] + Join(t[1..], [sep]));
        }
        forall k | 0 <= k < |r| ensures sep !in r[k] {
          if k > 0 {
            assert r[k] == t[k];
          }
        }
      }
    }
  }

  /** `parts.join('')`. */
  function Concat(parts: seq<string>): string {
    if parts == [] then [] else Concat(parts[..|parts| - 1]) + parts[|parts| - 1]
  }

  /** `line.length === 0 ? ' ' : line`. */
  function Content(line: string): (c: string)
    ensures line == [] ==> c == " "
    ensures line != [] ==> c == line
  {
    if line == [] then " " else line
  }

  /** `content.replace(/"/g, '&quot;')`. */
  function SafeText(content: string): string {
    ReplaceChar(content, '"', "&quot;")
  }

  lemma {:induction false} SafeTextSpec(content: string)
    ensures '"' !in SafeText(content)
    ensures '"' !in content ==> SafeText(content) == content
  {
    if content != [] {
      SafeTextSpec(content[1..]);
      var h := if content[0] == '"' then "&quot;" else [content[0]];
      assert SafeText(content) == h + SafeText(content[1..]);
      assert '"' !in h;
      if '"' !in content {
        ReplaceCharAbsent(content, '"', "&quot;");
      }
    }
  }

  /**
   * Only the double quote is escaped: `SafeText` works piece by piece, writes `&quot;`
   * for a `"` and keeps every other character as it is.
   */
  lemma SafeTextPieces(a: string, b: string, c: char)
    ensures SafeText(a + b) == SafeText(a) + SafeText(b)
    ensures SafeText(['"']) == "&quot;"
    ensures c != '"' ==> SafeText([c]) == [c]
  {
    ReplaceCharAppend(a, b, '"', "&quot;");
    assert ['"'][1..] == [] && [c][1..] == [];
  }

  // ---------------------------------------------------------------------------------
  // The annotation map

  /**
   * A plain object used as a dictionary: its entries in `Object.keys` order, which for
   * these keys is the order in which each key was first assigned.
   */
  type AnnotationMap = seq<(string, Note)>

  function Keys(m: AnnotationMap): (ks: seq<string>)
    ensures |ks| == |m| && forall i :: 0 <= i < |m| ==> ks[i] == m[i].0
  {
    if m == [] then [] else [m[0].0] + Keys(m[1..])
  }

  /** `map[k]`. */
  function Get(m: AnnotationMap, k: string): Option<Note> {
    if m == [] then None else if m[0].0 == k then Some(m[0].1) else Get(m[1..], k)
  }

  /** `map[k] = v`: an existing key keeps its place, a new one goes last. */
  function Insert(m: AnnotationMap, k: string, v: Note): AnnotationMap {
    if m == [] then [(k, v)]
    else if m[0].0 == k then [(k, v)] + m[1..]
    else [m[0]] + Insert(m[1..], k, v)
  }

  predicate Distinct(ks: seq<string>) {
    forall i, j :: 0 <= i < j < |ks| ==> ks[i] != ks[j]
  }

  lemma {:induction false} GetInsert(m: AnnotationMap, k: string, v: Note, k': string)
    ensures Get(Insert(m, k, v), k') == if k' == k then Some(v) else Get(m, k')
  {
    if m != [] && m[0].0 != k {
      GetInsert(m[1..], k, v, k');
    }
  }

  lemma {:induction false} KeysInsert(m: AnnotationMap, k: string, v: Note)
    ensures Keys(Insert(m, k, v)) == if k in Keys(m) then Keys(m) else Keys(m) + [k]
  {
    if m != [] {
      if m[0].0 == k {
        assert Keys(Insert(m, k, v))[0] == k;
        assert Keys(Insert(m, k, v))[1..] == Keys(m[1..]);
        assert k in Keys(m);
      } else {
        KeysInsert(m[1..], k, v);
        assert Keys(m) == [m[0].0] + Keys(m[1..]);
        assert (k in Keys(m)) == (k in Keys(m[1..]));
      }
    }
  }

  lemma {:induction false} GetSome(m: AnnotationMap, k: string)
    requires k in Keys(m)
    ensures Get(m, k).Some?
  {
    if m[0].0 != k {
      assert Keys(m) == [m[0].0] + Keys(m[1..]);
      GetSome(m[1..], k);
    }
  }

  lemma {:induction false} GetNone(m: AnnotationMap, k: string)
    requires k !in Keys(m)
    ensures Get(m, k).None?
  {
    if m != [] {
      assert Keys(m) == [m[0].0] + Keys(m[1..]);
      GetNone(m[1..], k);
    }
  }

  function AddsOf(step: Step): seq<Note> {
    if step.add.Some? then step.add.value else []
  }

  /** Every annotation the steps add, step by step, each step's in order. */
  function Items(steps: seq<Step>): seq<Note> {
    if steps == [] then [] else Items(steps[..|steps| - 1]) + AddsOf(steps[|steps| - 1])
  }

  /** `forEach(item => map[item.anchor] = item)` over `items`, starting from `m`. */
  function InsertAll(m: AnnotationMap, items: seq<Note>): AnnotationMap {
    if items == [] then m
    else var last := items[|items| - 1]; Insert(InsertAll(m, items[..|items| - 1]), last.anchor, last)
  }

  /** `scene.activeAnchor` is truthy: present and not empty. */
  predicate Truthy(s: Option<string>) {
    s.Some? && s.value != []
  }

  /** The scene as `fullRenderCode` reads it. */
  datatype CodeScene = CodeScene(
    code: string,
    steps: Option<seq<Step>>,
    activeAnchor: Option<string>,
    currentStepDetail: Option<Note>)

  /** The annotation map of a scene: the steps' annotations, then the current detail. */
  function AnnotationMapOf(scene: CodeScene): AnnotationMap {
    var m := if scene.steps.Some? then InsertAll([], Items(scene.steps.value)) else [];
    if scene.currentStepDetail.Some? && Truthy(scene.activeAnchor) then
      Insert(m, scene.activeAnchor.value, scene.currentStepDetail.value)
    else m
  }

  /** The two nested `forEach` loops and the override after them. */
  method BuildAnnotationMap(scene: CodeScene) returns (m: AnnotationMap)
    ensures m == AnnotationMapOf(scene)
  {
    m := [];
    if scene.steps.Some? {
      var steps := scene.steps.value;
      var i := 0;
      while i < |steps|
        invariant i <= |steps|
        invariant m == InsertAll([], Items(steps[..i]))
      {
        var adds := AddsOf(steps[i]);
        assert steps[..i + 1][..i] == steps[..i];
        var j := 0;
        assert Items(steps[..i]) + adds[..0] == Items(steps[..i]);
        while j < |adds|
          invariant j <= |adds|
          invariant m == InsertAll([], Items(steps[..i]) + adds[..j])
        {
          assert (Items(steps[..i]) + adds[..j + 1])[..|Items(steps[..i]) + adds[..j]|]
              == Items(steps[..i]) + adds[..j];
          m := Insert(m, adds[j].anchor, adds[j]);
          j := j + 1;
        }
        assert adds[..j] == adds;
        assert Items(steps[..i + 1]) == Items(steps[..i]) + adds;
        i := i + 1;
      }
      assert steps[..i] == steps;
    }
    if scene.currentStepDetail.Some? && Truthy(scene.activeAnchor) {
      m := Insert(m, scene.activeAnchor.value, scene.currentStepDetail.value);
    }
  }

  /** The anchors of `items`, in order. */
  function Anchors(items: seq<Note>): (r: seq<string>)
    ensures |r| == |items| && forall i :: 0 <= i < |items| ==> r[i] == items[i].anchor
  {
    if items == [] then [] else Anchors(items[..|items| - 1]) + [items[|items| - 1].anchor]
  }

  /** The first index at which `k` occurs in `ks`. */
  function FirstIndex(ks: seq<string>, k: string): (i: nat)
    requires k in ks
    ensures i < |ks| && ks[i] == k && forall j :: 0 <= j < i ==> ks[j] != k
  {
    if ks[0] == k then 0 else 1 + FirstIndex(ks[1..], k)
  }

  /**
   * Last write wins: each anchor maps to the last annotation added for it, and an
   * anchor that no annotation names is absent.
   */
  lemma {:induction false} InsertAllGet(items: seq<Note>, k: string)
    ensures LastWins(items, k, Get(InsertAll([], items), k))
  {
    if items != [] {
      InsertAllGet(items[..|items| - 1], k);
      LastWinsStep(items, k);
    }
  }

  /**
   * `r` is what a lookup of `k` finds after adding `items` in order: nothing when no item
   * names `k`, and otherwise the last item that does.
   */
  predicate LastWins(items: seq<Note>, k: string, r: Option<Note>) {
    (r.None? <==> forall i :: 0 <= i < |items| ==> items[i].anchor != k)
    && (r.Some? ==>
         exists i :: 0 <= i < |items| && items[i] == r.value && items[i].anchor == k
           && (forall j :: i < j < |items| ==> items[j].anchor != k))
  }

  /** One item more: `InsertAllGet` for `items` from `InsertAllGet` for all but its last. */
  lemma LastWinsStep(items: seq<Note>, k: string)
    requires items != []
    requires var p := items[..|items| - 1]; LastWins(p, k, Get(InsertAll([], p), k))
    ensures LastWins(items, k, Get(InsertAll([], items), k))
  {
    var n := |items| - 1;
    var p, last := items[..n], items[n];
    var m := InsertAll([], p);
    assert InsertAll([], items) == Insert(m, last.anchor, last);
    GetInsert(m, last.anchor, last, k);
    assert items == p + [last];
    LastWinsExtend(p, last, k, Get(m, k));
  }

  /** The last item wins if it names `k`; otherwise the lookup is what it was. */
  lemma LastWinsExtend(p: seq<Note>, last: Note, k: string, r: Option<Note>)
    requires LastWins(p, k, r)
    ensures LastWins(p + [last], k, if last.anchor == k then Some(last) else r)
  {
    var items := p + [last];
    assert forall i :: 0 <= i < |p| ==> items[i] == p[i];
    if last.anchor == k {
      assert items[|p|] == last;
    } else if r.Some? {
      var i :| 0 <= i < |p| && p[i] == r.value && p[i].anchor == k &&
        forall j :: i < j < |p| ==> p[j].anchor != k;
      assert items[i] == p[i];
    }
  }

  /** Each anchor is a key once, and the keys are exactly the anchors added. */
  lemma {:induction false} InsertAllKeySet(items: seq<Note>)
    ensures Distinct(Keys(InsertAll([], items)))
    ensures forall k :: k in Keys(InsertAll([], items)) <==> k in Anchors(items)
  {
    if items != [] {
      var n := |items| - 1;
      var p, last := items[..n], items[n];
      InsertAllKeySet(p);
      KeysInsert(InsertAll([], p), last.anchor, last);
      assert Anchors(items) == Anchors(p) + [last.anchor];
    }
  }

  /** Every key occurs among `anchors`, and earlier keys occur first earlier. */
  predicate InFirstOrder(ks: seq<string>, anchors: seq<string>) {
    (forall k :: k in ks ==> k in anchors)
    && forall i, j :: 0 <= i < j < |ks| ==>
      ks[i] in anchors && ks[j] in anchors && FirstIndex(anchors, ks[i]) < FirstIndex(anchors, ks[j])
  }

  lemma OrderStep(ks: seq<string>, anchors: seq<string>, x: string)
    requires forall k :: k in ks <==> k in anchors
    requires InFirstOrder(ks, anchors)
    ensures InFirstOrder(if x in ks then ks else ks + [x], anchors + [x])
  {
    var ks' := if x in ks then ks else ks + [x];
    var anchors' := anchors + [x];
    forall k | k in anchors
      ensures FirstIndex(anchors', k) == FirstIndex(anchors, k)
    {
      FirstIndexAppend(anchors, x, k);
    }
    if x !in ks {
      FirstIndexLast(anchors, x);
      forall i, j | 0 <= i < j < |ks'|
        ensures ks'[i] in anchors' && ks'[j] in anchors'
        ensures FirstIndex(anchors', ks'[i]) < FirstIndex(anchors', ks'[j])
      {
        assert ks'[i] == ks[i];
        if j < |ks| {
          assert ks'[j] == ks[j];
        }
      }
    }
  }

  /**
   * The keys come in the order in which each anchor first appears: overwriting a key
   * later does not move it.
   */
  lemma {:induction false} InsertAllKeyOrder(items: seq<Note>)
    ensures InFirstOrder(Keys(InsertAll([], items)), Anchors(items))
  {
    if items != [] {
      var n := |items| - 1;
      var p, last := items[..n], items[n];
      InsertAllKeyOrder(p);
      InsertAllKeySet(p);
      KeysInsert(InsertAll([], p), last.anchor, last);
      assert Anchors(items) == Anchors(p) + [last.anchor];
      OrderStep(Keys(InsertAll([], p)), Anchors(p), last.anchor);
    }
  }

  lemma {:induction false} FirstIndexAppend(ks: seq<string>, x: string, k: string)
    requires k in ks
    ensures FirstIndex(ks + [x], k) == FirstIndex(ks, k)
  {
    if ks[0] != k {
      assert (ks + [x])[1..] == ks[1..] + [x];
      FirstIndexAppend(ks[1..], x, k);
    }
  }

  lemma {:induction false} FirstIndexLast(ks: seq<string>, x: string)
    requires x !in ks
    ensures FirstIndex(ks + [x], x) == |ks|
  {
    if ks != [] {
      assert (ks + [x])[1..] == ks[1..] + [x];
      FirstIndexLast(ks[1..], x);
    }
  }

  /** The current step's detail, when set with a non-empty anchor, wins over the steps. */
  lemma OverrideWins(scene: CodeScene)
    requires scene.currentStepDetail.Some? && Truthy(scene.activeAnchor)
    ensures Get(AnnotationMapOf(scene), scene.activeAnchor.value) == scene.currentStepDetail
  {
    var m := if scene.steps.Some? then InsertAll([], Items(scene.steps.value)) else [];
    GetInsert(m, scene.activeAnchor.value, scene.currentStepDetail.value, scene.activeAnchor.value);
  }

  /** `Object.keys(map).find(anchor => content.includes(anchor))`. */
  function FirstAnchor(keys: seq<string>, content: string): (r: Option<nat>)
    ensures r.Some? ==> r.value < |keys| && Contains(content, keys[r.value])
    ensures r.Some? ==> forall j :: 0 <= j < r.value ==> !Contains(content, keys[j])
    ensures r.None? ==> forall j :: 0 <= j < |keys| ==> !Contains(content, keys[j])
  {
    if keys == [] then None
    else if Contains(content, keys[0]) then Some(0)
    else match FirstAnchor(keys[1..], content)
      case None => None
      case Some(i) => Some(i + 1)
  }

  // ---------------------------------------------------------------------------------
  // Line fragments

  /** The phantom row under an annotated line. */
  datatype Phantom = Phantom(id: nat, title: string, body: string)

  /** What one line's fragment is made of. */
  datatype LineView = LineView(
    triggerClass: string,
    safeText: string,
    target: nat,
    icon: string,
    highlighted: string,
    phantom: Option<Phantom>)

  const TriggerIcon := "<span class=\"ai-trigger-icon\">" + "\U{2728}" + "</span>"

  function Indent(n: nat): string {
    seq(n, _ => ' ')
  }

  function PhantomHtml(p: Option<Phantom>): string {
    if p.None? then ""
    else
      "\n" + Indent(16) + "<div class=\"phantom-row\" id=\"phantom-" + NatToString(p.value.id) + "\">"
      + "\n" + Indent(20) + "<div class=\"phantom-content\">"
      + "\n" + Indent(24) + "<div class=\"phantom-title\">" + p.value.title + "</div>"
      + "\n" + Indent(24) + "<div class=\"phantom-body\">" + p.value.body + "</div>"
      + "\n" + Indent(20) + "</div>"
      + "\n" + Indent(16) + "</div>"
  }

  /** The template literal that the `map` callback returns. */
  function LineHtml(v: LineView): string {
    "<div class=\"code-line-wrapper\"><div class=\"code-line " + v.triggerClass
    + "\" data-text=\"" + v.safeText
    + "\" data-target-phantom=\"phantom-" + NatToString(v.target) + "\">"
    + v.icon + v.highlighted + "</div>" + PhantomHtml(v.phantom) + "</div>"
  }

  /** The annotation line `content` shows, if any: the first key it contains, when not empty. */
  function MatchedNote(m: AnnotationMap, content: string): Option<Note> {
    match FirstAnchor(Keys(m), content)
    case None => None
    case Some(i) => if Keys(m)[i] == [] then None else Get(m, Keys(m)[i])
  }

  /** Line `index`, with `highlighted` its HTML from the highlighter. */
  function ViewOf(index: nat, content: string, highlighted: string, m: AnnotationMap): LineView {
    var note := MatchedNote(m, content);
    if note.Some? then
      LineView("has-phantom-trigger", SafeText(content), index, TriggerIcon, highlighted,
        Some(Phantom(index, note.value.title, note.value.content)))
    else LineView("", SafeText(content), index, "", highlighted, None)
  }

  /** `keys[i]` is the first key `content` contains, and it is not empty. */
  predicate FirstMatch(keys: seq<string>, content: string, i: nat) {
    i < |keys| && keys[i] != [] && Contains(content, keys[i])
    && forall j :: 0 <= j < i ==> !Contains(content, keys[j])
  }

  lemma FirstMatchIsFirstAnchor(keys: seq<string>, content: string, i: nat)
    requires FirstMatch(keys, content, i)
    ensures FirstAnchor(keys, content) == Some(i)
  {
    var r := FirstAnchor(keys, content);
    assert r.Some?;
    assert !(r.value < i) && !(i < r.value);
  }

  /**
   * A line gets the trigger class, the icon and a phantom row with its own index exactly
   * when the first annotation key it contains is not empty, and the row shows the title
   * and body of that key's note; every line names its phantom row target and carries
   * its text with double quotes escaped.
   */
  lemma LineAnnotated(index: nat, content: string, highlighted: string, m: AnnotationMap)
    ensures var v := ViewOf(index, content, highlighted, m);
      v.target == index && v.safeText == SafeText(content) && v.highlighted == highlighted
      && (v.phantom.Some? <==> exists i: nat :: FirstMatch(Keys(m), content, i))
      && (v.phantom.Some? ==> v.phantom.value.id == index && v.triggerClass == "has-phantom-trigger"
                              && v.icon == TriggerIcon)
      && (v.phantom.None? ==> v.triggerClass == [] && v.icon == [])
      && (forall i: nat :: FirstMatch(Keys(m), content, i) ==>
            Get(m, Keys(m)[i]).Some?
            && v.phantom == Some(Phantom(index, Get(m, Keys(m)[i]).value.title, Get(m, Keys(m)[i]).value.content)))
  {
    var ks := Keys(m);
    var v := ViewOf(index, content, highlighted, m);
    match FirstAnchor(ks, content)
    case None =>
      assert forall i: nat :: !FirstMatch(ks, content, i);
    case Some(i) =>
      if ks[i] != [] {
        GetSome(m, ks[i]);
        assert FirstMatch(ks, content, i);
      } else {
        forall i': nat | FirstMatch(ks, content, i')
          ensures false
        {
          FirstMatchIsFirstAnchor(ks, content, i');
        }
      }
  }

  /** The parser state before each line, and after the last: one state object, line after line. */
  function States(lines: seq<string>, st: State): (r: seq<State>)
    requires st.Valid()
    ensures |r| == |lines| + 1 && r[0] == st
    ensures forall j :: 0 <= j < |r| ==> r[j].Valid()
  {
    if lines == [] then [st]
    else
      var p := States(lines[..|lines| - 1], st);
      p + [Highlight(Content(lines[|lines| - 1]), p[|lines| - 1]).1]
  }

  lemma {:induction false} StatesPrefix(lines: seq<string>, st: State, i: nat)
    requires st.Valid() && i <= |lines|
    ensures States(lines, st)[..i + 1] == States(lines[..i], st)
    decreases |lines|
  {
    if i < |lines| {
      var n := |lines| - 1;
      assert lines[..n][..i] == lines[..i];
      StatesPrefix(lines[..n], st, i);
      assert States(lines, st)[..n + 1] == States(lines[..n], st);
      assert States(lines, st)[..i + 1] == States(lines[..n], st)[..i + 1];
    } else {
      assert lines[..i] == lines;
    }
  }

  /** Each line's state is the one the previous line left. */
  lemma StatesStep(lines: seq<string>, st: State, j: nat)
    requires st.Valid() && j < |lines|
    ensures States(lines, st)[j + 1] == Highlight(Content(lines[j]), States(lines, st)[j]).1
  {
    StatesPrefix(lines, st, j + 1);
    var q := lines[..j + 1];
    assert q[..j] == lines[..j];
    assert q[j] == lines[j];
    StatesPrefix(lines, st, j);
    StatesPrefix(q, st, j);
  }

  /** The delimiter a line opens: the last triple quote of the escaped line. */
  function Delimiter(line: string): string
    requires Opens(Escape(line))
  {
    var s := Escape(line);
    s[LastTriple(s).value..LastTriple(s).value + 3]
  }

  /**
   * A line that opens a triple-quoted string leaves its delimiter in the state: the
   * last triple quote on the line, `"""` or `'''`.
   */
  lemma OpeningLine(lines: seq<string>, st: State, a: nat)
    requires st.Valid() && a < |lines|
    requires !States(lines, st)[a].inQuote && Opens(Escape(Content(lines[a])))
    ensures States(lines, st)[a + 1] == State(true, Some(Delimiter(Content(lines[a]))))
    ensures Delimiter(Content(lines[a])) == Patterns.TripleDouble || Delimiter(Content(lines[a])) == Patterns.TripleSingle
  {
    StatesStep(lines, st, a);
    OpensAtLast(Content(lines[a]), States(lines, st)[a]);
  }

  /**
   * A string left open stays open through the lines that do not close it, and each of
   * them is shown whole as string text.
   */
  lemma OpenThrough(lines: seq<string>, st: State, a: nat, b: nat, d: string)
    requires st.Valid() && a <= b <= |lines|
    requires States(lines, st)[a] == State(true, Some(d))
    requires forall j :: a <= j < b ==> !Contains(Escape(Content(lines[j])), d)
    ensures forall j :: a <= j <= b ==> States(lines, st)[j] == State(true, Some(d))
    ensures forall j :: a <= j < b ==>
      Highlight(Content(lines[j]), States(lines, st)[j]).0 == Span("vs-string", Escape(Content(lines[j])))
  {
    StaysOpen(lines, st, a, b, d);
    forall j | a <= j < b
      ensures Highlight(Content(lines[j]), States(lines, st)[j]).0 == Span("vs-string", Escape(Content(lines[j])))
    {
      CarryOver(Content(lines[j]), States(lines, st)[j]);
    }
  }

  /** The states part of `OpenThrough`: every line keeps the open state it was given. */
  lemma StaysOpen(lines: seq<string>, st: State, a: nat, b: nat, d: string)
    requires st.Valid() && a <= b <= |lines|
    requires States(lines, st)[a] == State(true, Some(d))
    requires forall j :: a <= j < b ==> !Contains(Escape(Content(lines[j])), d)
    ensures forall j :: a <= j <= b ==> States(lines, st)[j] == State(true, Some(d))
  {
    var S, s := States(lines, st), State(true, Some(d));
    forall j | a <= j < b && S[j] == s
      ensures S[j + 1] == s
    {
      OpenStep(lines, st, j, d);
    }
    Persists(S, a, b, s);
  }

  /** A state each step keeps, once reached, holds to the end of the run. */
  lemma {:induction false} Persists(S: seq<State>, a: nat, b: nat, s: State)
    requires a <= b < |S| && S[a] == s
    requires forall j :: a <= j < b && S[j] == s ==> S[j + 1] == s
    ensures forall j :: a <= j <= b ==> S[j] == s
    decreases b - a
  {
    if a < b {
      Persists(S, a + 1, b, s);
      ExtendOpen(S, a, b, s);
    }
  }

  lemma ExtendOpen(S: seq<State>, a: nat, b: nat, s: State)
    requires a < b < |S| && S[a] == s
    requires forall j :: a + 1 <= j <= b ==> S[j] == s
    ensures forall j :: a <= j <= b ==> S[j] == s
  {
  }

  /** One line of `StaysOpen`: an open string runs over a line without its delimiter. */
  lemma OpenStep(lines: seq<string>, st: State, a: nat, d: string)
    requires st.Valid() && a < |lines|
    requires States(lines, st)[a] == State(true, Some(d))
    requires !Contains(Escape(Content(lines[a])), d)
    ensures States(lines, st)[a + 1] == State(true, Some(d))
  {
    StatesStep(lines, st, a);
    CarryOver(Content(lines[a]), States(lines, st)[a]);
  }

  /**
   * The line that holds the delimiter closes the string: the state after it is fresh
   * unless the text after the delimiter opens a new one.
   */
  lemma ClosingLine(lines: seq<string>, st: State, b: nat, d: string, k: nat)
    requires st.Valid() && b < |lines|
    requires States(lines, st)[b] == State(true, Some(d))
    requires IndexOf(Escape(Content(lines[b])), d) == Some(k)
    requires !Opens(Escape(Content(lines[b]))[k + |d|..])
    ensures States(lines, st)[b + 1] == Fresh
  {
    StatesStep(lines, st, b);
    ClosedState(Content(lines[b]), States(lines, st)[b], k);
  }

  /**
   * A string opened on line `a` and closed on line `b`, as in `x = """abc`, `def`,
   * `ghi"""`, `y = 1`: the lines in between are string text, the state carries the
   * opening delimiter up to line `b`, and after it the state is fresh again, so the
   * line after `b` is highlighted on its own.
   */
  lemma StringAcrossLines(lines: seq<string>, st: State, a: nat, b: nat, k: nat)
    requires st.Valid() && a < b < |lines|
    requires !States(lines, st)[a].inQuote && Opens(Escape(Content(lines[a])))
    requires forall j :: a < j < b ==> !Contains(Escape(Content(lines[j])), Delimiter(Content(lines[a])))
    requires IndexOf(Escape(Content(lines[b])), Delimiter(Content(lines[a]))) == Some(k)
    requires !Opens(Escape(Content(lines[b]))[k + 3..])
    ensures forall j :: a < j <= b ==> States(lines, st)[j] == State(true, Some(Delimiter(Content(lines[a]))))
    ensures forall j :: a < j < b ==>
      Highlight(Content(lines[j]), States(lines, st)[j]).0 == Span("vs-string", Escape(Content(lines[j])))
    ensures States(lines, st)[b + 1] == Fresh
  {
    var d := Delimiter(Content(lines[a]));
    OpeningLine(lines, st, a);
    StaysOpen(lines, st, a + 1, b, d);
    ClosingLine(lines, st, b, d, k);
    forall j | a < j < b
      ensures Highlight(Content(lines[j]), States(lines, st)[j]).0 == Span("vs-string", Escape(Content(lines[j])))
    {
      CarryOver(Content(lines[j]), States(lines, st)[j]);
    }
  }

  /** One fragment per line of the code, carriage returns dropped: newlines plus one. */
  lemma LineCount(scene: CodeScene)
    ensures var lines := Split(StripCR(scene.code), '\n');
      |Fragments(Views(lines, AnnotationMapOf(scene)))| == CountChar(scene.code, '\n') + 1
      && Join(lines, "\n") == StripCR(scene.code)
  {
    StripCRSpec(scene.code);
    SplitJoin(StripCR(scene.code), '\n');
  }

  /** The views of all lines, highlighted in order from a fresh state. */
  function Views(lines: seq<string>, m: AnnotationMap): (vs: seq<LineView>)
    ensures |vs| == |lines|
  {
    var states := States(lines, Fresh);
    seq(|lines|, j requires 0 <= j < |lines| =>
      ViewOf(j, Content(lines[j]), Highlight(Content(lines[j]), states[j]).0, m))
  }

  lemma ViewAt(lines: seq<string>, m: AnnotationMap, j: nat)
    requires j < |lines|
    ensures Views(lines, m)[j]
         == ViewOf(j, Content(lines[j]), Highlight(Content(lines[j]), States(lines, Fresh)[j]).0, m)
  {
  }

  /** `views.map(LineHtml)`. */
  function Fragments(vs: seq<LineView>): (r: seq<string>)
    ensures |r| == |vs|
  {
    if vs == [] then [] else Fragments(vs[..|vs| - 1]) + [LineHtml(vs[|vs| - 1])]
  }

  lemma FragmentsStep(vs: seq<LineView>, i: nat)
    requires i < |vs|
    ensures Fragments(vs[..i + 1]) == Fragments(vs[..i]) + [LineHtml(vs[i])]
  {
    assert vs[..i + 1][..i] == vs[..i];
  }

  /** The line HTML of a scene, `lines.map(…).join('')`. */
  function CodeHtml(scene: CodeScene): string {
    var lines := Split(StripCR(scene.code), '\n');
    Concat(Fragments(Views(lines, AnnotationMapOf(scene))))
  }

  /** The `map` callback for line `index`: highlight it with the shared state, then annotate it. */
  method RenderLine(index: nat, line: string, annotationMap: AnnotationMap, parserState: ParserState)
    returns (fragment: string)
    requires parserState.Value().Valid()
    modifies parserState
    ensures fragment == LineHtml(ViewOf(index, Content(line),
      Highlight(Content(line), old(parserState.Value())).0, annotationMap))
    ensures parserState.Value() == Highlight(Content(line), old(parserState.Value())).1
  {
    var content := if |line| == 0 then " " else line;
    assert content == Content(line);
    var highlighted := HighlightPython(content, parserState);
    var safeText := SafeText(content);
    var triggerClass, triggerIcon, phantom := "", "", None;
    var matched := FirstAnchor(Keys(annotationMap), content);
    if matched.Some? && Keys(annotationMap)[matched.value] != [] {
      var key := Keys(annotationMap)[matched.value];
      GetSome(annotationMap, key);
      var data := Get(annotationMap, key).value;
      triggerClass := "has-phantom-trigger";
      triggerIcon := TriggerIcon;
      phantom := Some(Phantom(index, data.title, data.content));
    }
    var v := LineView(triggerClass, safeText, index, triggerIcon, highlighted, phantom);
    assert v == ViewOf(index, content, highlighted, annotationMap);
    fragment := LineHtml(v);
  }

  /**
   * `fullRenderCode` up to the final `innerHTML`: every line in turn through the
   * highlighter with one state object created for this render.
   */
  method FullRenderCode(scene: CodeScene) returns (codeHtml: string)
    ensures codeHtml == CodeHtml(scene)
  {
    var cleanCode := StripCR(scene.code);
    var lines := Split(cleanCode, '\n');
    var annotationMap := BuildAnnotationMap(scene);
    var parserState := new ParserState();
    ghost var vs := Views(lines, annotationMap);
    ghost var states := States(lines, Fresh);
    var parts: seq<string> := [];
    var index := 0;
    while index < |lines|
      invariant index <= |lines|
      invariant parserState.Value() == states[index]
      invariant parts == Fragments(vs[..index])
    {
      StatesStep(lines, Fresh, index);
      ViewAt(lines, annotationMap, index);
      FragmentsStep(vs, index);
      var fragment := RenderLine(index, lines[index], annotationMap, parserState);
      parts := parts + [fragment];
      index := index + 1;
    }
    codeHtml := Concat(parts);
    assert vs[..index] == vs;
  }
}
