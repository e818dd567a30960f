/** The part of Go's `fmt.Sprintf` that the registry client uses: templates
    whose only verb is `%s`, each filled with the next string argument.
 */
module Format {

  /** The one verb modelled. */
  const Verb := "%s"

  /** What Go prints for a `%s` that has no argument left. */
  const Missing := "%!s(MISSING)"

  /** `fmt.Sprintf(template, args...)` for the `%s` verb: every other character
      is copied, every `%s` is replaced by the next argument, verbatim. */
  function Sprintf(template: string, args: seq<string>): (r: string)
    ensures '%' !in template ==> r == template
  {
    SprintfEnd(template, args);
    Substitute(template, args)
  }

  /** The walk over the template that `Sprintf` performs. */
  function Substitute(template: string, args: seq<string>): string
    decreases |template|
  {
    if |template| >= 2 && template[0] == '%' && template[1] == 's' then
      (if args == [] then Missing else args[0]) + Substitute(template[2..], if args == [] then [] else args[1..])
    else if template == [] then ""
    else [template[0]] + Substitute(template[1..], args)
  }

  /** A character other than `%` is copied and consumes no argument. */
  lemma SprintfHead(c: char, t: string, args: seq<string>)
    requires c != '%'
    ensures Substitute([c] + t, args) == [c] + Substitute(t, args)
  {
    var s := [c] + t;
    assert s[0] == c && s[1..] == t;
  }

  /** Text without a `%` passes through unchanged and consumes no argument. */
  lemma {:induction false} SprintfLiteral(lit: string, rest: string, args: seq<string>)
    requires '%' !in lit
    ensures Substitute(lit + rest, args) == lit + Substitute(rest, args)
  {
    if lit == [] {
      assert lit + rest == rest;
    } else {
      var tail := lit[1..];
      assert lit == [lit[0]] + tail;
      assert lit + rest == [lit[0]] + (tail + rest);
      assert lit[0] != '%' && '%' !in tail by {
        assert lit[0] in lit;
        assert forall i :: 0 <= i < |tail| ==> tail[i] == lit[i + 1];
      }
      SprintfHead(lit[0], tail + rest, args);
      SprintfLiteral(tail, rest, args);
    }
  }

  /** A literal followed by `%s` becomes the literal followed by the first argument. */
  lemma SprintfStep(lit: string, rest: string, arg: string, more: seq<string>)
    requires '%' !in lit
    ensures Substitute(lit + Verb + rest, [arg] + more) == lit + arg + Substitute(rest, more)
  {
    var t := Verb + rest;
    assert lit + Verb + rest == lit + t;
    SprintfLiteral(lit, t, [arg] + more);
    assert t[0] == '%' && t[1] == 's' && t[2..] == rest;
    assert ([arg] + more)[1..] == more;
  }

  /** A template that is a literal to its end yields exactly that literal. */
  lemma SprintfEnd(lit: string, args: seq<string>)
    ensures '%' !in lit ==> Substitute(lit, args) == lit
  {
    if '%' !in lit {
      SprintfLiteral(lit, "", args);
      assert lit + "" == lit;
    }
  }

  lemma Assoc(p: string, q: string, r: string)
    ensures p + (q + r) == p + q + r
  {
  }

  /** `p + (q1 + ... + q5)` regrouped to the left. */
  lemma Assoc5(p: string, q1: string, q2: string, q3: string, q4: string, q5: string)
    ensures p + (q1 + q2 + q3 + q4 + q5) == p + q1 + q2 + q3 + q4 + q5
  {
    Assoc(p, q1 + q2 + q3 + q4, q5);
    Assoc(p, q1 + q2 + q3, q4);
    Assoc(p, q1 + q2, q3);
    Assoc(p, q1, q2);
  }

  /** A template with one `%s` between two literals. */
  lemma Fill1(a: string, d: string, x: string)
    requires '%' !in a && '%' !in d
    ensures Substitute(a + Verb + d, [x]) == a + x + d
  {
    SprintfEnd(d, []);
    SprintfStep(a, d, x, []);
    assert [x] + [] == [x];
  }

  /** A template with two `%s` among three literals. */
  lemma Fill2(a: string, b: string, d: string, x: string, y: string)
    requires '%' !in a && '%' !in b && '%' !in d
    ensures Substitute(a + Verb + b + Verb + d, [x, y]) == a + x + b + y + d
  {
    var rest := b + Verb + d;
    assert a + Verb + b + Verb + d == a + Verb + rest by {
      Assoc(a + Verb, b + Verb, d);
      Assoc(a + Verb, b, Verb);
    }
    assert a + x + b + y + d == a + x + (b + y + d) by {
      Assoc(a + x, b + y, d);
      Assoc(a + x, b, y);
    }
    assert Substitute(rest, [y]) == b + y + d by {
      Fill1(b, d, y);
    }
    assert [x, y] == [x] + [y];
    SprintfStep(a, rest, x, [y]);
  }

  /** A template with three `%s` among four literals. */
  lemma Fill3(a: string, b: string, c: string, d: string, x: string, y: string, z: string)
    requires '%' !in a && '%' !in b && '%' !in c && '%' !in d
    ensures Substitute(a + Verb + b + Verb + c + Verb + d, [x, y, z]) == a + x + b + y + c + z + d
  {
    var rest := b + Verb + c + Verb + d;
    var filled := b + y + c + z + d;
    assert a + Verb + b + Verb + c + Verb + d == a + Verb + rest by {
      Assoc5(a + Verb, b, Verb, c, Verb, d);
    }
    assert a + x + b + y + c + z + d == a + x + filled by {
      Assoc5(a + x, b, y, c, z, d);
    }
    assert Substitute(rest, [y, z]) == filled by {
      Fill2(b, c, d, y, z);
    }
    assert [x, y, z] == [x] + [y, z];
    SprintfStep(a, rest, x, [y, z]);
  }
}
