/** Exactly when an object body that the generic reader accepts can be skipped. */
module AmfSkip {
  import opened Bytes
  import opened AmfValue
  import opened AmfReader
  import opened AmfMessage
  import opened AmfArrayLimit

  /** The skipper knows no arrays; otherwise both readers agree on every value. */
  lemma {:induction false} SkipValueExactly(cfg: Limits, s: bytes, depth: nat, cur: Field)
    ensures SkipValue(cfg, s, depth).ok <==>
            ReadValue(cfg, s, depth, cur).ok && ValueObeys(Arrayless, cfg, s, depth, cur)
    decreases |s|, 1
  {
    if depth <= cfg.maxDepth && s != [] {
      if s[0] == OBJECT {
        SkipPlain(cfg, s, depth, cur);
      } else if s[0] == TYPED_OBJECT {
        SkipTyped(cfg, s, depth, cur);
      } else {
        SkipOther(cfg, s, depth, cur);
      }
    }
  }

  lemma {:induction false} SkipPlain(cfg: Limits, s: bytes, depth: nat, cur: Field)
    requires depth <= cfg.maxDepth && s != [] && s[0] == OBJECT
    ensures SkipValue(cfg, s, depth).ok <==>
            ReadValue(cfg, s, depth, cur).ok && ValueObeys(Arrayless, cfg, s, depth, cur)
    decreases |s|, 0
  {
    SkipBodyExactly(cfg, s[1..], depth + 1, ObjectIn(cur));
  }

  lemma {:induction false} SkipTyped(cfg: Limits, s: bytes, depth: nat, cur: Field)
    requires depth <= cfg.maxDepth && s != [] && s[0] == TYPED_OBJECT
    ensures SkipValue(cfg, s, depth).ok <==>
            ReadValue(cfg, s, depth, cur).ok && ValueObeys(Arrayless, cfg, s, depth, cur)
    decreases |s|, 0
  {
    var class_ := ReadText(cfg, s[1..], 2);
    if class_.ok {
      SkipBodyExactly(cfg, class_.rest, depth + 1, ObjectIn(cur));
    }
  }

  lemma SkipOther(cfg: Limits, s: bytes, depth: nat, cur: Field)
    requires depth <= cfg.maxDepth && s != [] && s[0] != OBJECT && s[0] != TYPED_OBJECT
    ensures SkipValue(cfg, s, depth).ok <==>
            ReadValue(cfg, s, depth, cur).ok && ValueObeys(Arrayless, cfg, s, depth, cur)
  {
    if s[0] == ECMA_ARRAY || s[0] == STRICT_ARRAY {
      assert !SkipValue(cfg, s, depth).ok && !ValueObeys(Arrayless, cfg, s, depth, cur);
    } else {
      assert SkipValue(cfg, s, depth).ok == ReadScalar(cfg, s[0], s[1..]).ok == ReadValue(cfg, s, depth, cur).ok;
    }
  }

  /** A body is skipped if and only if it is read generically and holds no array of either kind. */
  lemma {:induction false} SkipBodyExactly(cfg: Limits, s: bytes, depth: nat, es: seq<Entry>)
    ensures SkipBody(cfg, s, depth).ok <==>
            ReadObjectBody(cfg, s, depth, es).ok && BodyObeys(Arrayless, cfg, s, depth, es)
    decreases |s|, 2
  {
    var name := ReadText(cfg, s, 2);
    if depth <= cfg.maxDepth && name.ok && name.text != [] {
      var cur := Current(es, name.text);
      SkipValueExactly(cfg, name.rest, depth, cur);
      if SkipValue(cfg, name.rest, depth).ok {
        SkipThenValue(cfg, name.rest, depth, cur);
        var v := ReadValue(cfg, name.rest, depth, cur);
        var es' := Store(es, name.text, v.field);
        SkipBodyExactly(cfg, v.rest, depth, es');
        assert ReadObjectBody(cfg, v.rest, depth, es') == ReadPairs(cfg, v.rest, depth, es', None);
      }
    }
  }
}
