/**
 * The run command of src/extension.ts: refuse anything but a `.thtml` file,
 * compile it, inline its stylesheets, and put a `<base>` tag into the page so
 * that relative links resolve against the file's folder.
 */
module Preview {
  import opened Strings
  import opened Dictionary
  import opened Compiler

  const Head: string := "<head>"

  /** The `<base>` tag pointing at the folder holding the file. */
  function BaseTag(folder: string): string {
    "<base href=\"file://" + folder + "/\">"
  }

  /**
   * The page with the base tag: on a new line right after the first `<head>`
   * when there is one, otherwise on a line of its own in front of the page.
   */
  function InsertBase(page: string, baseTag: string): (r: string)
    ensures Contains(page, Head) ==> exists i: nat ::
      && At(page, i, Head) && (forall k :: 0 <= k < i ==> !At(page, k, Head))
      && r == page[..i + |Head|] + "\n" + baseTag + page[i + |Head|..]
    ensures !Contains(page, Head) ==> r == baseTag + "\n" + page
  {
    if Contains(page, Head) then
      HeadInsert(page, baseTag);
      ReplaceFirst(page, Head, Head + "\n" + baseTag)
    else baseTag + "\n" + page
  }

  /** Replacing the first `<head>` by itself, a newline and the base tag puts the tag right after it. */
  lemma HeadInsert(page: string, baseTag: string)
    requires Contains(page, Head)
    ensures exists i: nat ::
      && At(page, i, Head) && (forall k :: 0 <= k < i ==> !At(page, k, Head))
      && ReplaceFirst(page, Head, Head + "\n" + baseTag) == page[..i + |Head|] + "\n" + baseTag + page[i + |Head|..]
  {
    var r := ReplaceFirst(page, Head, Head + "\n" + baseTag);
    var i: nat :| && At(page, i, Head) && (forall k :: 0 <= k < i ==> !At(page, k, Head))
                  && r == page[..i] + (Head + "\n" + baseTag) + page[i + |Head|..];
    InsertedAt(page, i, baseTag);
  }

  lemma InsertedAt(page: string, i: nat, baseTag: string)
    requires At(page, i, Head)
    ensures page[..i] + (Head + "\n" + baseTag) + page[i + |Head|..] == page[..i + |Head|] + "\n" + baseTag + page[i + |Head|..]
  {
    assert page[..i + |Head|] == page[..i] + Head;
  }

  /** The only `<` of the doctype is its first character, so `<head>` never starts inside it. */
  lemma HeadAfterDoctype(page: string, i: nat)
    requires StartsWith(page, Doctype) && At(page, i, Head)
    ensures i >= |Doctype|
  {
    assert page[i..i + |Head|] == Head;
    assert page[i] == '<' && page[i + 1] == 'h';
    assert page[..|Doctype|] == Doctype;
    assert forall k :: 1 <= k < |Doctype| ==> Doctype[k] != '<';
  }

  /**
   * Inserting the base tag into a compiled page keeps the doctype in front
   * when the page has a `<head>`; without one the page starts with the base tag.
   */
  lemma InsertBaseKeepsDoctype(page: string, baseTag: string)
    requires StartsWith(page, Doctype)
    ensures Contains(page, Head) ==> StartsWith(InsertBase(page, baseTag), Doctype)
    ensures !Contains(page, Head) ==> StartsWith(InsertBase(page, baseTag), baseTag + "\n" + Doctype)
  {
    var r := InsertBase(page, baseTag);
    if Contains(page, Head) {
      var i: nat :| At(page, i, Head) && r == page[..i + |Head|] + "\n" + baseTag + page[i + |Head|..];
      HeadAfterDoctype(page, i);
      assert r[..|Doctype|] == page[..|Doctype|];
    } else {
      assert r[..|baseTag + "\n" + Doctype|] == baseTag + "\n" + page[..|Doctype|];
    }
  }

  /** What the run command ends with: an error message, or the page it opens in the browser. */
  datatype Outcome = Refused(message: string) | Page(html: string)

  const HtmlExt: string := ".thtml"

  /**
   * The run command. `inline` stands for the stylesheet inliner, which reads
   * files and is not part of this model; `folder` is `path.dirname` of the file.
   */
  function Run(fileName: string, folder: string, code: string, html: Dict, css: Dict, inline: string -> string): (r: Outcome)
    ensures r.Refused? <==> !EndsWith(fileName, HtmlExt)
    ensures r.Refused? ==> r.message == "Open a .thtml file to run it."
  {
    if !EndsWith(fileName, HtmlExt) then Refused("Open a .thtml file to run it.")
    else Page(InsertBase(inline(Compiled(code, html, css)), BaseTag(folder)))
  }

  /**
   * A `.thtml` file opens as its compiled page after stylesheet inlining:
   * when the inliner leaves the doctype line first, the page keeps it first
   * and gets the base tag right after the first `<head>`; without a `<head>`
   * the base tag comes before the doctype.
   */
  lemma RunOpensCompiledPage(fileName: string, folder: string, code: string, html: Dict, css: Dict, inline: string -> string)
    requires EndsWith(fileName, HtmlExt)
    requires StartsWith(inline(Compiled(code, html, css)), Doctype)
    ensures Run(fileName, folder, code, html, css, inline).Page?
    ensures var page := Run(fileName, folder, code, html, css, inline).html;
      var inlined := inline(Compiled(code, html, css));
      && page == InsertBase(inlined, BaseTag(folder))
      && (Contains(inlined, Head) ==> StartsWith(page, Doctype) && exists i: nat ::
           && At(inlined, i, Head) && (forall k :: 0 <= k < i ==> !At(inlined, k, Head))
           && page == inlined[..i + |Head|] + "\n" + BaseTag(folder) + inlined[i + |Head|..])
      && (!Contains(inlined, Head) ==> StartsWith(page, BaseTag(folder) + "\n" + Doctype))
  {
    InsertBaseKeepsDoctype(inline(Compiled(code, html, css)), BaseTag(folder));
  }
}
