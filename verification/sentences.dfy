/** The annotated input: sentences as flat lists of dependency nodes. */
module Sentences {
  import opened Wrappers

  /**
   * One node of a parsed sentence, reduced to the fields the core reads.
   * `parent` is the id named by the node's relation, when there is one.
   * `lemmaForm` is the lemma. An artificial node's optional lemma is never read by the core; it is
   * carried here as whatever string the input gave (empty when absent).
   */
  datatype SentenceNode = SentenceNode(id: string, lemmaForm: string, parent: Option<string>)
  {
    /** Artificial (collapsed) nodes are those whose id starts with 'E'. */
    predicate IsArtificial() {
      |id| > 0 && id[0] == 'E'
    }

    predicate IsWord() {
      !IsArtificial()
    }

    /**
     * The parent id as the builder sees it: an absent parent and an empty
     * one are both falsy, so both read as "".
     */
    function ParentKey(): string {
      if parent.Some? then parent.value else ""
    }

    /** A node with no (or an empty) parent id becomes a root of the forest. */
    predicate IsRoot() {
      ParentKey() == ""
    }

    /** The label its tree node receives: the lemma of a word, the id of an artificial node. */
    function Label(): string {
      if IsWord() then lemmaForm else id
    }
  }

  datatype Sentence = Sentence(nodes: seq<SentenceNode>)

  /** A text/hypothesis pair with its gold judgement ("YES" or "NO"). */
  datatype Pair = Pair(id: string, text: seq<Sentence>, hypothesis: seq<Sentence>, entailment: string)

  /**
   * What the builder relies on of a sentence: every id is non-empty (the
   * reader inspects its first character) and no two nodes share an id (ids
   * key the lookup table).
   */
  ghost predicate WellFormed(s: Sentence) {
    && (forall k :: 0 <= k < |s.nodes| ==> s.nodes[k].id != "")
    && (forall a, b :: 0 <= a < |s.nodes| && 0 <= b < |s.nodes| && a != b ==> s.nodes[a].id != s.nodes[b].id)
  }

  ghost predicate AllWellFormed(ss: seq<Sentence>) {
    forall k :: 0 <= k < |ss| ==> WellFormed(ss[k])
  }
}
